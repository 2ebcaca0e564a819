/** What each list of a search is worth: the score of an item that stands in one of them only. */
module ChannelWeights {
  import opened Fusion
  import opened Ids

  /** x stands in the list once, at this rank, counted from 1. */
  ghost predicate OnceAt(items: seq<Id>, rank: nat, x: Id) {
    0 < rank <= |items| && forall j :: 0 <= j < |items| ==> (items[j] == x <==> j == rank - 1)
  }

  /** An item that stands once in a list gets weight / (k + rank) from it. */
  lemma {:induction false} OnePlace(items: seq<Id>, weight: real, k: nat, rank: nat, x: Id)
    requires OnceAt(items, rank, x)
    ensures Contribution(items, weight, k, x) * (k + rank) as real == weight
    decreases |items|
  {
    var n := |items| - 1;
    if rank == |items| {
      AbsentContributesZero(items[..n], weight, k, x);
      Divided(weight, (k + rank) as real);
    } else {
      forall j | 0 <= j < n ensures items[..n][j] == x <==> j == rank - 1 {
      }
      OnePlace(items[..n], weight, k, rank, x);
    }
  }

  lemma Divided(w: real, x: real)
    requires x > 0.0
    ensures w / x * x == w
  {
  }

  /** If only one list has the item, its score is what that list gives. */
  lemma {:induction false} OneChannel(cs: seq<Channel>, i: nat, k: nat, x: Id)
    requires i < |cs| && x in cs[i].items && forall j :: 0 <= j < |cs| && j != i ==> x !in cs[j].items
    ensures Score(cs, k, x) == Contribution(cs[i].items, cs[i].weight, k, x) && x in Items(cs)
    decreases |cs|
  {
    var n := |cs| - 1;
    if i == n {
      NoChannel(cs[..n], k, x);
    } else {
      AbsentContributesZero(cs[n].items, cs[n].weight, k, x);
      assert cs[..n][i] == cs[i];
      OneChannel(cs[..n], i, k, x);
    }
  }

  lemma {:induction false} NoChannel(cs: seq<Channel>, k: nat, x: Id)
    requires forall j :: 0 <= j < |cs| ==> x !in cs[j].items
    ensures Score(cs, k, x) == 0.0
    decreases |cs|
  {
    if cs != [] {
      var n := |cs| - 1;
      AbsentContributesZero(cs[n].items, cs[n].weight, k, x);
      NoChannel(cs[..n], k, x);
    }
  }

  /** The item stands in the list i at this rank, and in none of the others. */
  ghost predicate OnlyIn(cs: seq<Channel>, i: nat, rank: nat, x: Id) {
    i < |cs| && OnceAt(cs[i].items, rank, x) && forall j :: 0 <= j < |cs| && j != i ==> x !in cs[j].items
  }

  lemma ScoreOfOne(raw: Scores, cs: seq<Channel>, k: nat, i: nat, rank: nat, x: Id) returns (c: real)
    requires Fused(raw, cs, k) && OnlyIn(cs, i, rank, x)
    ensures x in raw && raw[x] == c && c * (k + rank) as real == cs[i].weight
  {
    c := Placed(cs[i].items, cs[i].weight, k, rank, x);
    assert cs[i].items[rank - 1] == x;
    OneChannel(cs, i, k, x);
  }

  lemma Placed(items: seq<Id>, weight: real, k: nat, rank: nat, x: Id) returns (c: real)
    requires OnceAt(items, rank, x)
    ensures c == Contribution(items, weight, k, x) && c * (k + rank) as real == weight
  {
    OnePlace(items, weight, k, rank, x);
    c := Contribution(items, weight, k, x);
  }

  /**
    What a search gives an item that stands in one of its five lists, at rank r, divided by 60 + r: 1 in the two
    full-text lists, the quality of the embedder but at least 0.5 in the two vector lists, and 0.7 in that of the graph.
   */
  lemma ScoreInOneList(raw: Scores, fts: seq<Id>, chunkFts: seq<Id>, vec: seq<Id>, chunkVec: seq<Id>, graph: seq<Id>,
                       quality: real, i: nat, rank: nat, x: Id)
    requires Fused(raw, SearchChannels(fts, chunkFts, vec, chunkVec, graph, quality), RRF_K)
    requires OnlyIn(SearchChannels(fts, chunkFts, vec, chunkVec, graph, quality), i, rank, x)
    ensures x in raw && raw[x] * (60 + rank) as real
         == if x in fts || x in chunkFts then 1.0
            else if x in vec || x in chunkVec then (if quality > 0.5 then quality else 0.5)
            else 0.7
  {
    var cs := SearchChannels(fts, chunkFts, vec, chunkVec, graph, quality);
    var c := ScoreOfOne(raw, cs, RRF_K, i, rank, x);
    assert cs[i].items[rank - 1] == x;
    WeightOfList(fts, chunkFts, vec, chunkVec, graph, quality, i, x);
  }

  lemma WeightOfList(fts: seq<Id>, chunkFts: seq<Id>, vec: seq<Id>, chunkVec: seq<Id>, graph: seq<Id>, quality: real,
                     i: nat, x: Id)
    requires i < 5
    requires var cs := SearchChannels(fts, chunkFts, vec, chunkVec, graph, quality);
      x in cs[i].items && forall j :: 0 <= j < 5 && j != i ==> x !in cs[j].items
    ensures SearchChannels(fts, chunkFts, vec, chunkVec, graph, quality)[i].weight
         == if x in fts || x in chunkFts then 1.0
            else if x in vec || x in chunkVec then (if quality > 0.5 then quality else 0.5)
            else 0.7
  {
    var cs := SearchChannels(fts, chunkFts, vec, chunkVec, graph, quality);
    assert cs[0].items == fts && cs[1].items == chunkFts && cs[2].items == vec;
    assert cs[3].items == chunkVec && cs[4].items == graph;
  }
}
