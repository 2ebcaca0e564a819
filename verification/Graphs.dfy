/**
  Finite directed graphs as sets of pairs: walks, the ball of radius n around a
  set of sources, and what the two have to do with each other.  The traversals
  of the program are all specified against these definitions.
 */
module Graphs {

  type Edges<T(==)> = set<(T, T)>

  /** p is a walk: consecutive nodes are joined by an edge. */
  ghost predicate IsWalk<T>(E: Edges<T>, p: seq<T>) {
    && |p| > 0
    && forall i :: 0 <= i < |p| - 1 ==> (p[i], p[i + 1]) in E
  }

  /** p is a walk from u to v; it has |p| - 1 edges. */
  ghost predicate WalkFromTo<T>(E: Edges<T>, p: seq<T>, u: T, v: T) {
    IsWalk(E, p) && p[0] == u && p[|p| - 1] == v
  }

  /** A walk of at least one edge that comes back to its first node. */
  ghost predicate ClosedWalk<T>(E: Edges<T>, p: seq<T>) {
    IsWalk(E, p) && |p| >= 2 && p[0] == p[|p| - 1]
  }

  ghost predicate HasCycle<T(!new)>(E: Edges<T>) {
    exists p :: ClosedWalk(E, p)
  }

  ghost function Successors<T>(E: Edges<T>, S: set<T>): (r: set<T>) {
    set e | e in E && e.0 in S :: e.1
  }

  /** The nodes at most n edges away from one of the sources. */
  ghost function Ball<T>(E: Edges<T>, S: set<T>, n: nat): (r: set<T>)
    ensures S <= r
  {
    if n == 0 then S else Ball(E, S, n - 1) + Successors(E, Ball(E, S, n - 1))
  }

  /** v is exactly n edges away from the nearest source. */
  ghost predicate AtDistance<T>(E: Edges<T>, S: set<T>, v: T, n: nat) {
    v in Ball(E, S, n) && (n > 0 ==> v !in Ball(E, S, n - 1))
  }

  lemma {:induction false} BallMonotone<T>(E: Edges<T>, S: set<T>, m: nat, n: nat)
    requires m <= n
    ensures Ball(E, S, m) <= Ball(E, S, n)
  {
    if m < n {
      BallMonotone(E, S, m, n - 1);
    }
  }

  /** A ball that contains its own successors never grows again. */
  lemma {:induction false} ClosedBall<T>(E: Edges<T>, S: set<T>, m: nat, n: nat)
    requires Successors(E, Ball(E, S, m)) <= Ball(E, S, m)
    ensures Ball(E, S, n) <= Ball(E, S, m)
  {
    if n <= m {
      BallMonotone(E, S, n, m);
    } else {
      ClosedBall(E, S, m, n - 1);
    }
  }

  lemma {:induction false} WalkInBall<T>(E: Edges<T>, S: set<T>, p: seq<T>, n: nat)
    requires IsWalk(E, p) && p[0] in S && |p| - 1 <= n
    ensures p[|p| - 1] in Ball(E, S, n)
  {
    if |p| > 1 {
      var q := p[..|p| - 1];
      WalkInBall(E, S, q, n - 1);
      assert (p[|p| - 2], p[|p| - 1]) in E;
    }
  }

  lemma {:induction false} BallHasWalk<T>(E: Edges<T>, s: T, v: T, n: nat) returns (p: seq<T>)
    requires v in Ball(E, {s}, n)
    ensures WalkFromTo(E, p, s, v) && |p| - 1 <= n
  {
    if n == 0 {
      p := [v];
    } else if v in Ball(E, {s}, n - 1) {
      p := BallHasWalk(E, s, v, n - 1);
    } else {
      var e :| e in E && e.0 in Ball(E, {s}, n - 1) && e.1 == v;
      var q := BallHasWalk(E, s, e.0, n - 1);
      p := q + [v];
    }
  }

  /** The ball of radius n is exactly the set of nodes some walk of at most n edges reaches. */
  lemma BallIsReachability<T(!new)>(E: Edges<T>, s: T, v: T, n: nat)
    ensures v in Ball(E, {s}, n) <==> exists p :: WalkFromTo(E, p, s, v) && |p| - 1 <= n
  {
    if v in Ball(E, {s}, n) {
      var p := BallHasWalk(E, s, v, n);
    }
    forall p | WalkFromTo(E, p, s, v) && |p| - 1 <= n
      ensures v in Ball(E, {s}, n)
    {
      WalkInBall(E, {s}, p, n);
    }
  }

  /** Distances are unique. */
  lemma DistanceUnique<T>(E: Edges<T>, S: set<T>, v: T, m: nat, n: nat)
    requires AtDistance(E, S, v, m) && AtDistance(E, S, v, n)
    ensures m == n
  {
    if m < n {
      BallMonotone(E, S, m, n - 1);
    } else if n < m {
      BallMonotone(E, S, n, m - 1);
    }
  }

  /** If e starts at position i of `order`, it leads to an earlier position. */
  ghost predicate LeadsBack<T>(order: seq<T>, e: (T, T), i: nat)
    requires i < |order|
  {
    e.0 == order[i] ==> e.1 in order[..i]
  }

  /** `order` has no repetitions, and every edge leads from a later position to an earlier one. */
  ghost predicate Descending<T>(E: Edges<T>, order: seq<T>) {
    && (forall i, j :: 0 <= i < j < |order| ==> order[i] != order[j])
    && forall e, i {:trigger LeadsBack(order, e, i)} :: e in E && 0 <= i < |order| ==> LeadsBack(order, e, i)
  }

  lemma {:induction false} WalkDescends<T>(E: Edges<T>, order: seq<T>, p: seq<T>, i: nat) returns (j: nat)
    requires Descending(E, order) && IsWalk(E, p)
    requires i < |order| && p[0] == order[i]
    ensures j <= i && p[|p| - 1] == order[j]
    ensures |p| > 1 ==> j < i
    decreases |p|
  {
    if |p| == 1 {
      j := i;
    } else {
      assert (p[0], p[1]) in E && LeadsBack(order, (p[0], p[1]), i);
      var k :| 0 <= k < i && order[k] == p[1];
      var q := p[1..];
      assert IsWalk(E, q) by {
        forall n | 0 <= n < |q| - 1 ensures (q[n], q[n + 1]) in E {
          assert (p[n + 1], p[n + 2]) in E;
        }
      }
      j := WalkDescends(E, order, q, k);
    }
  }

  lemma DescendingAcyclic<T(!new)>(E: Edges<T>, order: seq<T>)
    requires Descending(E, order)
    requires forall e :: e in E ==> e.0 in order
    ensures !HasCycle(E)
  {
    if p :| ClosedWalk(E, p) {
      assert (p[0], p[1]) in E;
      var i :| 0 <= i < |order| && order[i] == p[0];
      var j := WalkDescends(E, order, p, i);
    }
  }

  // ----- breadth-first search, one layer at a time

  /**
    Where a breadth-first search from the sources S stands: the nodes in P have been
    expanded, those in A are waiting at depth d, those in B were discovered at depth d + 1.
   */
  ghost predicate Layered<T>(E: Edges<T>, S: set<T>, d: nat, P: set<T>, A: set<T>, B: set<T>) {
    && P + A == Ball(E, S, d)
    && P !! A
    && B == Successors(E, P) - Ball(E, S, d)
    && (d > 0 ==> Ball(E, S, d - 1) <= P)
  }

  /** A layer is used up: the next one is exactly what was discovered. */
  lemma LayerAdvance<T>(E: Edges<T>, S: set<T>, d: nat, P: set<T>, B: set<T>)
    requires Layered(E, S, d, P, {}, B)
    ensures Layered(E, S, d + 1, P, B, {})
  {
  }

  /** Expanding u adds exactly those of its successors that no set holds yet. */
  lemma LayerExpand<T>(E: Edges<T>, S: set<T>, d: nat, P: set<T>, A: set<T>, B: set<T>, u: T)
    requires Layered(E, S, d, P, A, B) && u in A
    ensures Layered(E, S, d, P + {u}, A - {u}, B + (Successors(E, {u}) - (P + A + B)))
  {
    assert Successors(E, P + {u}) == Successors(E, P) + Successors(E, {u});
    assert (P + {u}) + (A - {u}) == P + A;
  }

  /** Nodes waiting in A and B are at distance d and d + 1. */
  lemma LayerDistances<T>(E: Edges<T>, S: set<T>, d: nat, P: set<T>, A: set<T>, B: set<T>)
    requires Layered(E, S, d, P, A, B)
    ensures forall v :: v in A ==> AtDistance(E, S, v, d)
    ensures forall v :: v in B ==> AtDistance(E, S, v, d + 1)
  {
    forall v | v in B ensures v in Ball(E, S, d + 1) {
      var e :| e in E && e.0 in P && e.1 == v;
      assert e.0 in Ball(E, S, d);
    }
  }

  /** Nothing is waiting: everything reachable has been expanded. */
  lemma LayersDone<T>(E: Edges<T>, S: set<T>, d: nat, P: set<T>, n: nat)
    requires Layered(E, S, d, P, {}, {})
    ensures Ball(E, S, n) <= P
  {
    ClosedBall(E, S, d, n);
  }

  lemma {:induction false} SubsetSize<T>(A: set<T>, B: set<T>)
    requires A <= B
    ensures |A| <= |B|
  {
    if A != {} {
      var x :| x in A;
      SubsetSize(A - {x}, B - {x});
    }
  }
}

/** The work list of a breadth-first search: nodes waiting, with the depth at which they were discovered. */
module SearchQueue {
  import opened Ids

  datatype Waiting = Waiting(node: Id, depth: nat)

  type Queue = seq<Waiting>

  ghost function Nodes(q: Queue): set<Id> {
    set x | x in q :: x.node
  }

  ghost predicate DistinctNodes(q: Queue) {
    forall i, j :: 0 <= i < j < |q| ==> q[i].node != q[j].node
  }

  lemma AppendNode(q: Queue, v: Id, d: nat)
    requires DistinctNodes(q) && v !in Nodes(q)
    ensures DistinctNodes(q + [Waiting(v, d)]) && Nodes(q + [Waiting(v, d)]) == Nodes(q) + {v}
  {
    assert forall j :: 0 <= j < |q| ==> q[j].node in Nodes(q);
    assert forall x :: x in q + [Waiting(v, d)] <==> x in q || x == Waiting(v, d);
  }

  lemma SplitNodes(q: Queue, r: Queue)
    ensures Nodes(q + r) == Nodes(q) + Nodes(r)
  {
    assert forall x :: x in q + r <==> x in q || x in r;
  }

  lemma PopNode(q: Queue)
    requires DistinctNodes(q) && q != []
    ensures Nodes(q[1..]) == Nodes(q) - {q[0].node} && q[0].node in Nodes(q)
    ensures DistinctNodes(q[1..])
  {
    assert q == [q[0]] + q[1..];
    SplitNodes([q[0]], q[1..]);
    forall x | x in q[1..] ensures x.node != q[0].node {
      var i :| 0 <= i < |q| - 1 && q[1..][i] == x;
      assert q[i + 1] == x;
    }
  }

  lemma DistinctAppend(q: Queue, r: Queue)
    requires DistinctNodes(q) && DistinctNodes(r) && Nodes(q) !! Nodes(r)
    ensures DistinctNodes(q + r)
  {
    assert forall i :: 0 <= i < |q| ==> q[i].node in Nodes(q);
    assert forall i :: 0 <= i < |r| ==> r[i].node in Nodes(r);
  }
}
