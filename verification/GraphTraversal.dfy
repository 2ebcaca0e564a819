/**
  Typed edges between memories: `link` (create, update, delete) and the
  depth-limited, cycle-safe traversal `graph`.
 */
module GraphTraversal {
  import opened Wrappers
  import opened Ids
  import opened Graphs
  import opened SearchQueue

  datatype Edge = Edge(source: Id, target: Id, relation: string, properties: string, createdAt: real)

  datatype Direction = Outbound | Inbound | Both

  datatype EdgeRow = EdgeRow(id: Id, edge: Edge)

  datatype GraphResult =
    | NotFound
    | Found(start: Id, nodes: set<Id>, edges: seq<EdgeRow>, depth: nat)

  datatype LinkResult =
    | Deleted
    | EdgeNotFound
    | SourceNotFound
    | TargetNotFound
    | SelfLoop
    | Updated(id: Id)
    | Created(id: Id)

  type EdgeTable = map<Id, Edge>

  // ----- the edge query

  /** An absent relation and an empty one both mean: no filter. */
  predicate Passes(e: Edge, relation: Option<string>) {
    relation.None? || relation.value == "" || e.relation == relation.value
  }

  /**
    What the SQL fetches at node u.  In the query for both directions the filter is appended to
    `source_id = ? OR target_id = ?`, and AND binds tighter than OR: only the inbound half is filtered.
   */
  predicate Fetched(e: Edge, u: Id, direction: Direction, relation: Option<string>) {
    match direction
    case Outbound => e.source == u && Passes(e, relation)
    case Inbound => e.target == u && Passes(e, relation)
    case Both => e.source == u || (e.target == u && Passes(e, relation))
  }

  /** The node an edge fetched at u leads to. */
  function Other(e: Edge, u: Id, direction: Direction): Id {
    match direction
    case Outbound => e.target
    case Inbound => e.source
    case Both => if e.source == u then e.target else e.source
  }

  /** The step relation of a traversal: u is joined to whatever an edge fetched at u leads to. */
  ghost function Steps(edges: EdgeTable, direction: Direction, relation: Option<string>): Edges<Id> {
    set k, u | k in edges && u in {edges[k].source, edges[k].target} && Fetched(edges[k], u, direction, relation)
      :: (u, Other(edges[k], u, direction))
  }

  /** The ids of the edges fetched at some node of S. */
  ghost function EdgesAt(edges: EdgeTable, S: set<Id>, direction: Direction, relation: Option<string>): set<Id> {
    set k | k in edges && exists u :: u in S && Fetched(edges[k], u, direction, relation)
  }

  ghost function Others(edges: EdgeTable, rows: set<Id>, u: Id, direction: Direction): set<Id>
    requires rows <= edges.Keys
  {
    set k | k in rows :: Other(edges[k], u, direction)
  }

  /** Without a relation every edge passes, with one those of that relation. */
  lemma PassesIff(e: Edge, relation: Option<string>)
    ensures Passes(e, relation) <==> (relation.Some? && relation.value != "" ==> relation.value == e.relation)
  {
  }

  /** Outbound, a traversal goes along the edges that pass the filter, inbound against them, and otherwise both ways. */
  lemma StepsAre(edges: EdgeTable, relation: Option<string>, u: Id, v: Id)
    ensures (u, v) in Steps(edges, Outbound, relation)
       <==> exists k :: k in edges && Passes(edges[k], relation) && edges[k].source == u && edges[k].target == v
    ensures (u, v) in Steps(edges, Inbound, relation) <==> (v, u) in Steps(edges, Outbound, relation)
    ensures (u, v) in Steps(edges, Both, None)
       <==> (u, v) in Steps(edges, Outbound, None) || (v, u) in Steps(edges, Outbound, None)
  {
    forall k | k in edges
      ensures Fetched(edges[k], edges[k].source, Outbound, relation) <==> Passes(edges[k], relation)
      ensures Fetched(edges[k], edges[k].target, Inbound, relation) <==> Passes(edges[k], relation)
    {
    }
    if k :| k in edges && edges[k].source == u && edges[k].target == v {
      assert Fetched(edges[k], u, Both, None) && Fetched(edges[k], u, Outbound, None);
    }
    if k :| k in edges && edges[k].source == v && edges[k].target == u {
      assert Fetched(edges[k], u, Both, None) && Fetched(edges[k], v, Outbound, None);
    }
  }

  /** Which edges are fetched at the nodes of S. */
  lemma EdgesAtAre(edges: EdgeTable, S: set<Id>, relation: Option<string>)
    ensures EdgesAt(edges, S, Outbound, relation)
         == set k | k in edges && edges[k].source in S && Passes(edges[k], relation)
    ensures EdgesAt(edges, S, Inbound, relation)
         == set k | k in edges && edges[k].target in S && Passes(edges[k], relation)
    ensures EdgesAt(edges, S, Both, relation)
         == set k | k in edges && (edges[k].source in S || (edges[k].target in S && Passes(edges[k], relation)))
  {
    forall k | k in edges
      ensures k in EdgesAt(edges, S, Outbound, relation) <==> edges[k].source in S && Passes(edges[k], relation)
      ensures k in EdgesAt(edges, S, Inbound, relation) <==> edges[k].target in S && Passes(edges[k], relation)
      ensures k in EdgesAt(edges, S, Both, relation)
         <==> edges[k].source in S || (edges[k].target in S && Passes(edges[k], relation))
    {
      var e := edges[k];
      assert e.source in S && Passes(e, relation) ==> Fetched(e, e.source, Outbound, relation);
      assert e.target in S && Passes(e, relation) ==> Fetched(e, e.target, Inbound, relation);
      assert e.source in S ==> Fetched(e, e.source, Both, relation);
      assert e.target in S && Passes(e, relation) ==> Fetched(e, e.target, Both, relation);
    }
  }

  /** One edge from a to b: outbound it leads from a to b, inbound from b to a. */
  lemma OneEdgeOneWay(k: Id, a: Id, b: Id)
    requires a != b
    ensures var edges := map[k := Edge(a, b, "uses", "", 0.0)];
      && Successors(Steps(edges, Outbound, None), {a}) == {b} && Successors(Steps(edges, Outbound, None), {b}) == {}
      && Successors(Steps(edges, Inbound, None), {b}) == {a} && Successors(Steps(edges, Inbound, None), {a}) == {}
  {
    var edges := map[k := Edge(a, b, "uses", "", 0.0)];
    assert k in edges && Passes(edges[k], None) && edges[k].source == a && edges[k].target == b;
    forall u, v ensures (u, v) in Steps(edges, Outbound, None) <==> u == a && v == b {
      StepsAre(edges, None, u, v);
    }
    forall u, v ensures (u, v) in Steps(edges, Inbound, None) <==> u == b && v == a {
      StepsAre(edges, None, u, v);
    }
    assert (a, b) in Steps(edges, Outbound, None) && (b, a) in Steps(edges, Inbound, None);
  }

  lemma FetchedLeadsToSuccessors(edges: EdgeTable, u: Id, direction: Direction, relation: Option<string>)
    ensures Others(edges, EdgesAt(edges, {u}, direction, relation), u, direction)
         == Successors(Steps(edges, direction, relation), {u})
  {
    var E := Steps(edges, direction, relation);
    forall k | k in EdgesAt(edges, {u}, direction, relation)
      ensures Other(edges[k], u, direction) in Successors(E, {u})
    {
      assert (u, Other(edges[k], u, direction)) in E;
    }
    forall v | v in Successors(E, {u})
      ensures v in Others(edges, EdgesAt(edges, {u}, direction, relation), u, direction)
    {
      assert (u, v) in E;
      var k :| k in edges && Fetched(edges[k], u, direction, relation) && v == Other(edges[k], u, direction);
      assert k in EdgesAt(edges, {u}, direction, relation);
    }
  }

  // ----- the traversal

  /** A traversal so far: every edge taken has both its ends visited. */
  ghost predicate EndsVisited(edges: EdgeTable, visitedEdges: set<Id>, visitedNodes: set<Id>) {
    visitedEdges <= edges.Keys
        && forall k :: k in visitedEdges ==> edges[k].source in visitedNodes && edges[k].target in visitedNodes
  }

  /** The reported rows are the edges taken, each once. */
  ghost predicate Reports(edges: EdgeTable, rows: seq<EdgeRow>, visitedEdges: set<Id>) {
    && (forall i, j :: 0 <= i < j < |rows| ==> rows[i].id != rows[j].id)
    && (forall r :: r in rows ==> r.id in edges && r.edge == edges[r.id])
    && (forall k :: k in visitedEdges <==> exists r :: r in rows && r.id == k)
  }

  lemma ReportOne(edges: EdgeTable, rows: seq<EdgeRow>, visitedEdges: set<Id>, k: Id)
    requires Reports(edges, rows, visitedEdges) && k in edges && k !in visitedEdges
    ensures Reports(edges, rows + [EdgeRow(k, edges[k])], visitedEdges + {k})
  {
    var rows' := rows + [EdgeRow(k, edges[k])];
    assert forall i :: 0 <= i < |rows| ==> rows[i] in rows;
    assert forall r :: r in rows' <==> r in rows || r == EdgeRow(k, edges[k]);
  }

  /** What the traversal has gathered. */
  datatype Gathered = Gathered(nodes: set<Id>, edges: set<Id>, rows: seq<EdgeRow>)

  ghost predicate Consistent(edges: EdgeTable, g: Gathered) {
    EndsVisited(edges, g.edges, g.nodes) && Reports(edges, g.rows, g.edges)
  }

  /** One fetched edge: skipped if it was taken before, else reported, and its far end queued if new. */
  method TakeEdge(edges: EdgeTable, k: Id, current: Id, currentDepth: nat, direction: Direction,
                  relation: Option<string>, g0: Gathered, queue0: Queue)
    returns (g: Gathered, queue: Queue)
    requires k in edges && Fetched(edges[k], current, direction, relation)
    requires Consistent(edges, g0) && current in g0.nodes
    requires DistinctNodes(queue0) && Nodes(queue0) <= g0.nodes
    ensures Consistent(edges, g)
    ensures g.edges == g0.edges + {k}
    ensures g.nodes == g0.nodes + {Other(edges[k], current, direction)}
    ensures DistinctNodes(queue) && Nodes(queue) == Nodes(queue0) + (g.nodes - g0.nodes)
    ensures queue0 <= queue && forall i :: |queue0| <= i < |queue| ==> queue[i].depth == currentDepth + 1
  {
    g, queue := g0, queue0;
    if k in g.edges {
      return;
    }
    ReportOne(edges, g.rows, g.edges, k);
    g := g.(edges := g.edges + {k}, rows := g.rows + [EdgeRow(k, edges[k])]);
    var next := Other(edges[k], current, direction);
    if next !in g.nodes {
      AppendNode(queue, next, currentDepth + 1);
      g := g.(nodes := g.nodes + {next});
      queue := queue + [Waiting(next, currentDepth + 1)];
    }
  }

  /** All edges fetched at one node, in whatever order the database returns them. */
  method ExpandNode(edges: EdgeTable, current: Id, currentDepth: nat, direction: Direction, relation: Option<string>,
                    g0: Gathered)
    returns (g: Gathered, extra: Queue)
    requires Consistent(edges, g0) && current in g0.nodes
    ensures Consistent(edges, g)
    ensures g.edges == g0.edges + EdgesAt(edges, {current}, direction, relation)
    ensures g.nodes == g0.nodes + Successors(Steps(edges, direction, relation), {current})
    ensures DistinctNodes(extra) && Nodes(extra) == g.nodes - g0.nodes
    ensures forall i :: 0 <= i < |extra| ==> extra[i].depth == currentDepth + 1
  {
    var fetched := set k | k in edges && Fetched(edges[k], current, direction, relation);
    assert fetched == EdgesAt(edges, {current}, direction, relation);
    var todo := fetched;
    ghost var done: set<Id> := {};
    g, extra := g0, [];
    assert Nodes(extra) == {};
    while todo != {}
      invariant done + todo == fetched && done !! todo && Consistent(edges, g)
      invariant g.edges == g0.edges + done
      invariant g.nodes == g0.nodes + Others(edges, done, current, direction)
      invariant DistinctNodes(extra) && Nodes(extra) == g.nodes - g0.nodes
      invariant forall i :: 0 <= i < |extra| ==> extra[i].depth == currentDepth + 1
      decreases todo
    {
      var k :| k in todo;
      g, extra := TakeEdge(edges, k, current, currentDepth, direction, relation, g, extra);
      OneMoreOther(edges, done, k, current, direction);
      todo, done := todo - {k}, done + {k};
    }
    FetchedLeadsToSuccessors(edges, current, direction, relation);
  }

  lemma OneMoreOther(edges: EdgeTable, rows: set<Id>, k: Id, u: Id, direction: Direction)
    requires rows <= edges.Keys && k in edges
    ensures Others(edges, rows + {k}, u, direction)
        == Others(edges, rows, u, direction) + {Other(edges[k], u, direction)}
  {
  }

  /**
    Where the traversal stands.  Before the depth limit: the queue is qa + qb, P has been expanded,
    qa completes layer d and qb is what layer d + 1 consists of so far.
   */
  ghost predicate Traversing(edges: EdgeTable, start: Id, direction: Direction, relation: Option<string>, depth: nat,
                             g: Gathered, queue: Queue, qa: Queue, qb: Queue, d: nat, P: set<Id>)
    requires depth > 0
  {
    && queue == qa + qb && DistinctNodes(qa) && DistinctNodes(qb)
    && (forall i :: 0 <= i < |qa| ==> qa[i].depth == d)
    && (forall i :: 0 <= i < |qb| ==> qb[i].depth == d + 1)
    && Layered(Steps(edges, direction, relation), {start}, d, P, Nodes(qa), Nodes(qb))
    && g.nodes == P + Nodes(qa) + Nodes(qb)
    && g.edges == EdgesAt(edges, P, direction, relation)
    && (qb != [] ==> d < depth) && d <= depth
    && P <= Ball(Steps(edges, direction, relation), {start}, depth - 1)
  }

  /** The result is complete: what is left on the queue lies at the depth limit. */
  ghost predicate Complete(edges: EdgeTable, start: Id, direction: Direction, relation: Option<string>, depth: nat,
                           g: Gathered, queue: Queue)
    requires depth > 0
  {
    && g.nodes == Ball(Steps(edges, direction, relation), {start}, depth)
    && g.edges == EdgesAt(edges, Ball(Steps(edges, direction, relation), {start}, depth - 1), direction, relation)
    && (forall i :: 0 <= i < |queue| ==> queue[i].depth >= depth)
  }

  /** The front layer is used up: the discovered nodes become the front layer. */
  lemma NextFront(edges: EdgeTable, start: Id, direction: Direction, relation: Option<string>, depth: nat, g: Gathered,
                  queue: Queue, qa: Queue, qb: Queue, d: nat, P: set<Id>) returns (qa': Queue, qb': Queue, d': nat)
    requires depth > 0 && Traversing(edges, start, direction, relation, depth, g, queue, qa, qb, d, P) && queue != []
    ensures Traversing(edges, start, direction, relation, depth, g, queue, qa', qb', d', P)
    ensures qa' != [] && queue[0] == qa'[0] && queue[0].depth == d'
  {
    qa', qb', d' := qa, qb, d;
    if qa == [] {
      assert Nodes([]) == {};
      LayerAdvance(Steps(edges, direction, relation), {start}, d, P, Nodes(qb));
      qa', qb', d' := qb, [], d + 1;
    }
  }

  lemma EdgesAtOneMore(edges: EdgeTable, P: set<Id>, u: Id, direction: Direction, relation: Option<string>)
    ensures EdgesAt(edges, P + {u}, direction, relation)
        == EdgesAt(edges, P, direction, relation) + EdgesAt(edges, {u}, direction, relation)
  {
  }

  lemma Expanded(edges: EdgeTable, start: Id, direction: Direction, relation: Option<string>, depth: nat, g0: Gathered,
                 queue: Queue, qa: Queue, qb: Queue, d: nat, P: set<Id>, g: Gathered, extra: Queue)
    requires depth > 0 && Traversing(edges, start, direction, relation, depth, g0, queue, qa, qb, d, P)
    requires qa != [] && d < depth
    requires g.edges == g0.edges + EdgesAt(edges, {qa[0].node}, direction, relation)
    requires g.nodes == g0.nodes + Successors(Steps(edges, direction, relation), {qa[0].node})
    requires DistinctNodes(extra) && Nodes(extra) == g.nodes - g0.nodes
    requires forall i :: 0 <= i < |extra| ==> extra[i].depth == d + 1
    ensures Traversing(edges, start, direction, relation, depth, g, queue[1..] + extra, qa[1..], qb + extra, d,
                       P + {qa[0].node})
  {
    var u, E := qa[0].node, Steps(edges, direction, relation);
    assert queue[1..] + extra == qa[1..] + (qb + extra);
    PopNode(qa);
    DistinctAppend(qb, extra);
    SplitNodes(qb, extra);
    LayerExpand(E, {start}, d, P, Nodes(qa), Nodes(qb), u);
    EdgesAtOneMore(edges, P, u, direction, relation);
    BallMonotone(E, {start}, d, depth - 1);
  }

  lemma LimitReached(edges: EdgeTable, start: Id, direction: Direction, relation: Option<string>, depth: nat,
                     g: Gathered, queue: Queue, qa: Queue, qb: Queue, d: nat, P: set<Id>)
    requires depth > 0 && Traversing(edges, start, direction, relation, depth, g, queue, qa, qb, d, P)
    requires d == depth
    ensures Complete(edges, start, direction, relation, depth, g, queue)
  {
    assert qb == [] && Nodes([]) == {};
  }

  lemma RunsDry(edges: EdgeTable, start: Id, direction: Direction, relation: Option<string>, depth: nat, g: Gathered,
                d: nat, P: set<Id>)
    requires depth > 0 && Traversing(edges, start, direction, relation, depth, g, [], [], [], d, P)
    ensures Complete(edges, start, direction, relation, depth, g, [])
  {
    var E := Steps(edges, direction, relation);
    assert Nodes([]) == {};
    LayersDone(E, {start}, d, P, depth);
    LayersDone(E, {start}, d, P, depth - 1);
    BallMonotone(E, {start}, depth - 1, depth);
  }

  lemma Started(edges: EdgeTable, start: Id, direction: Direction, relation: Option<string>, depth: nat)
    requires depth > 0
    ensures Traversing(edges, start, direction, relation, depth, Gathered({start}, {}, []), [Waiting(start, 0)],
                       [Waiting(start, 0)], [], 0, {})
  {
    assert Nodes([Waiting(start, 0)]) == {start} && Nodes([]) == {};
    assert EdgesAt(edges, {}, direction, relation) == {};
  }

  ghost function Everything(edges: EdgeTable, start: Id): set<Id> {
    {start} + (set k | k in edges :: edges[k].source) + (set k | k in edges :: edges[k].target)
  }

  /** The breadth-first loop: dequeue, drop at the depth limit, expand below it. */
  method Traverse(edges: EdgeTable, start: Id, direction: Direction, relation: Option<string>, depth: nat)
      returns (g: Gathered)
    requires depth > 0
    ensures Consistent(edges, g)
    ensures Complete(edges, start, direction, relation, depth, g, [])
  {
    g := Gathered({start}, {}, []);
    var queue: Queue := [Waiting(start, 0)];
    ghost var qa: Queue, qb: Queue, d: nat, P: set<Id>, limit := queue, [], 0, {}, false;
    Started(edges, start, direction, relation, depth);
    while queue != []
      invariant Consistent(edges, g) && g.nodes <= Everything(edges, start)
      invariant limit ==> Complete(edges, start, direction, relation, depth, g, queue)
      invariant !limit ==> Traversing(edges, start, direction, relation, depth, g, queue, qa, qb, d, P)
      decreases !limit, Everything(edges, start) - P, |queue|
    {
      if !limit {
        qa, qb, d := NextFront(edges, start, direction, relation, depth, g, queue, qa, qb, d, P);
      }
      var current := queue[0];
      if current.depth >= depth {
        if !limit {
          LimitReached(edges, start, direction, relation, depth, g, queue, qa, qb, d, P);
        }
        queue, limit := queue[1..], true;
      } else {
        PopNode(qa);
        var g', extra := ExpandNode(edges, current.node, current.depth, direction, relation, g);
        Expanded(edges, start, direction, relation, depth, g, queue, qa, qb, d, P, g', extra);
        g, queue := g', queue[1..] + extra;
        qa, qb, P := qa[1..], qb + extra, P + {current.node};
      }
    }
    if !limit {
      RunsDry(edges, start, direction, relation, depth, g, d, P);
    }
  }

  // ----- the filter

  /** The edges that pass the filter: the table in which a query with both halves filtered would search. */
  ghost function Filtered(edges: EdgeTable, relation: Option<string>): EdgeTable {
    map k | k in edges && Passes(edges[k], relation) :: edges[k]
  }

  /** Every edge that leaves a node of S passes the filter. */
  ghost predicate LeavingPass(edges: EdgeTable, S: set<Id>, relation: Option<string>) {
    forall k :: k in edges && edges[k].source in S ==> Passes(edges[k], relation)
  }

  lemma FilteredFetch(edges: EdgeTable, S: set<Id>, relation: Option<string>, k: Id, u: Id)
    requires LeavingPass(edges, S, relation) && u in S && k in edges
    ensures Fetched(edges[k], u, Both, relation)
       <==> k in Filtered(edges, relation) && Fetched(Filtered(edges, relation)[k], u, Both, relation)
  {
  }

  lemma FilteredSuccessors(edges: EdgeTable, S: set<Id>, relation: Option<string>)
    requires LeavingPass(edges, S, relation)
    ensures Successors(Steps(edges, Both, relation), S)
        == Successors(Steps(Filtered(edges, relation), Both, relation), S)
  {
    var E, F := Steps(edges, Both, relation), Steps(Filtered(edges, relation), Both, relation);
    forall e | e in E && e.0 in S ensures e in F {
      var k :| k in edges && Fetched(edges[k], e.0, Both, relation) && e.1 == Other(edges[k], e.0, Both);
      FilteredFetch(edges, S, relation, k, e.0);
    }
    forall e | e in F ensures e in E {
    }
  }

  lemma FewerLeaving(edges: EdgeTable, S: set<Id>, T: set<Id>, relation: Option<string>)
    requires S <= T && LeavingPass(edges, T, relation)
    ensures LeavingPass(edges, S, relation)
  {
  }

  /** As long as every edge that leaves the filtered ball passes, the unfiltered one is the same. */
  lemma {:induction false} FilteredBall(edges: EdgeTable, start: Id, relation: Option<string>, m: nat, n: nat,
                                        S: set<Id>)
    requires m <= n + 1 && LeavingPass(edges, S, relation)
    requires S == Ball(Steps(Filtered(edges, relation), Both, relation), {start}, n)
    ensures Ball(Steps(edges, Both, relation), {start}, m)
        == Ball(Steps(Filtered(edges, relation), Both, relation), {start}, m)
  {
    if m > 0 {
      var F := Steps(Filtered(edges, relation), Both, relation);
      var P := Ball(F, {start}, m - 1);
      FilteredBall(edges, start, relation, m - 1, n, S);
      BallMonotone(F, {start}, m - 1, n);
      FewerLeaving(edges, P, S, relation);
      FilteredSuccessors(edges, P, relation);
    }
  }

  lemma {:induction false} BallOfMore<T>(E: Edges<T>, F: Edges<T>, S: set<T>, n: nat)
    requires F <= E
    ensures Ball(F, S, n) <= Ball(E, S, n)
  {
    if n > 0 {
      BallOfMore(E, F, S, n - 1);
    }
  }

  /** What a traversal of both directions finds: the nodes up to the depth and the edges of the nearer ones. */
  ghost predicate SameAnswer(edges: EdgeTable, edges': EdgeTable, start: Id, relation: Option<string>, depth: nat)
    requires depth > 0
  {
    var E, E' := Steps(edges, Both, relation), Steps(edges', Both, relation);
    && Ball(E, {start}, depth) == Ball(E', {start}, depth)
    && EdgesAt(edges, Ball(E, {start}, depth - 1), Both, relation)
        == EdgesAt(edges', Ball(E', {start}, depth - 1), Both, relation)
  }

  /**
    A query for both directions and a relation answers as if both its halves were filtered if and only if every edge
    that leaves a node within reach, short of the depth, passes the filter.
   */
  lemma BothFilterIff(edges: EdgeTable, start: Id, relation: Option<string>, depth: nat)
    requires depth > 0
    ensures SameAnswer(edges, Filtered(edges, relation), start, relation, depth)
       <==> LeavingPass(edges, Ball(Steps(Filtered(edges, relation), Both, relation), {start}, depth - 1), relation)
  {
    var S := Ball(Steps(Filtered(edges, relation), Both, relation), {start}, depth - 1);
    if LeavingPass(edges, S, relation) {
      PassMeansSame(edges, start, relation, depth, depth - 1, S);
    }
    if SameAnswer(edges, Filtered(edges, relation), start, relation, depth) {
      SameMeansPass(edges, start, relation, depth, S);
    }
  }

  lemma PassMeansSame(edges: EdgeTable, start: Id, relation: Option<string>, depth: nat, n: nat, S: set<Id>)
    requires depth == n + 1 && LeavingPass(edges, S, relation)
    requires S == Ball(Steps(Filtered(edges, relation), Both, relation), {start}, n)
    ensures SameAnswer(edges, Filtered(edges, relation), start, relation, depth)
  {
    var E, F := Steps(edges, Both, relation), Steps(Filtered(edges, relation), Both, relation);
    FilteredBall(edges, start, relation, n, n, S);
    FilteredBall(edges, start, relation, depth, n, S);
    SameEdgesAt(edges, S, relation);
    AnswersAgree(edges, Filtered(edges, relation), start, relation, depth, n, E, F, S);
  }

  lemma AnswersAgree(edges: EdgeTable, edges': EdgeTable, start: Id, relation: Option<string>, depth: nat, n: nat,
                     E: Edges<Id>, E': Edges<Id>, S: set<Id>)
    requires depth == n + 1 && E == Steps(edges, Both, relation) && E' == Steps(edges', Both, relation)
    requires Ball(E, {start}, n) == S == Ball(E', {start}, n) && Ball(E, {start}, depth) == Ball(E', {start}, depth)
    requires EdgesAt(edges, S, Both, relation) == EdgesAt(edges', S, Both, relation)
    ensures SameAnswer(edges, edges', start, relation, depth)
  {
  }

  lemma SameMeansPass(edges: EdgeTable, start: Id, relation: Option<string>, depth: nat, S: set<Id>)
    requires depth > 0 && SameAnswer(edges, Filtered(edges, relation), start, relation, depth)
    requires S == Ball(Steps(Filtered(edges, relation), Both, relation), {start}, depth - 1)
    ensures LeavingPass(edges, S, relation)
  {
    var E, F := Steps(edges, Both, relation), Steps(Filtered(edges, relation), Both, relation);
    var T := Ball(E, {start}, depth - 1);
    FewerSteps(edges, relation);
    BallOfMore(E, F, {start}, depth - 1);
    forall k | k in edges && edges[k].source in S ensures Passes(edges[k], relation) {
      LeavesFetched(edges, T, relation, k);
    }
  }

  lemma FewerSteps(edges: EdgeTable, relation: Option<string>)
    ensures Steps(Filtered(edges, relation), Both, relation) <= Steps(edges, Both, relation)
  {
  }

  lemma LeavesFetched(edges: EdgeTable, T: set<Id>, relation: Option<string>, k: Id)
    requires k in edges && edges[k].source in T
    ensures k in EdgesAt(edges, T, Both, relation)
  {
    assert Fetched(edges[k], edges[k].source, Both, relation);
  }

  lemma SameEdgesAt(edges: EdgeTable, S: set<Id>, relation: Option<string>)
    requires LeavingPass(edges, S, relation)
    ensures EdgesAt(edges, S, Both, relation) == EdgesAt(Filtered(edges, relation), S, Both, relation)
  {
    var filtered := Filtered(edges, relation);
    forall k | k in EdgesAt(edges, S, Both, relation) ensures k in EdgesAt(filtered, S, Both, relation) {
      var u :| u in S && Fetched(edges[k], u, Both, relation);
      FilteredFetch(edges, S, relation, k, u);
    }
    forall k | k in EdgesAt(filtered, S, Both, relation) ensures k in EdgesAt(edges, S, Both, relation) {
    }
  }

  /** One edge of another relation, leaving the start: it is reported, and the memory behind it too. */
  lemma ForeignEdgeReported(k: Id, a: Id, b: Id, depth: nat)
    requires a != b && depth > 0
    ensures var edges, relation := map[k := Edge(a, b, "uses", "", 0.0)], Some("knows");
      && b in Ball(Steps(edges, Both, relation), {a}, depth)
      && k in EdgesAt(edges, Ball(Steps(edges, Both, relation), {a}, depth - 1), Both, relation)
      && Ball(Steps(Filtered(edges, relation), Both, relation), {a}, depth) == {a}
      && !SameAnswer(edges, Filtered(edges, relation), a, relation, depth)
  {
    var edges, relation := map[k := Edge(a, b, "uses", "", 0.0)], Some("knows");
    var E, F := Steps(edges, Both, relation), Steps(Filtered(edges, relation), Both, relation);
    assert Fetched(edges[k], a, Both, relation);
    assert (a, b) in E;
    BallMonotone(E, {a}, 1, depth);
    BallMonotone(E, {a}, 0, depth - 1);
    assert Ball(E, {a}, 0) == {a} && b in Successors(E, {a});
    assert "uses"[0] != "knows"[0];
    assert !Passes(edges[k], relation);
    assert F == {};
    ClosedBall(F, {a}, 0, depth);
  }

  /** In the one-directional queries the filter always holds. */
  lemma OneWayFilterHonoured(edges: EdgeTable, S: set<Id>, direction: Direction, relation: Option<string>, k: Id)
    requires direction != Both && k in EdgesAt(edges, S, direction, relation)
    ensures Passes(edges[k], relation)
  {
    var u :| u in S && Fetched(edges[k], u, direction, relation);
  }

  // ----- the store

  predicate SameTriple(e: Edge, source: Id, target: Id, relation: string) {
    e.source == source && e.target == target && e.relation == relation
  }

  ghost predicate Joins(e: Edge, source: Id, target: Id, relation: string) {
    e == Edge(source, target, relation, e.properties, e.createdAt)
  }

  /** Memories and the edges between them. */
  class GraphStore {
    var memories: set<Id>
    var edges: EdgeTable

    /** Foreign keys, and the unique key of the edges table. */
    ghost predicate Valid()
      reads this
    {
      && (forall k :: k in edges ==> edges[k].source in memories && edges[k].target in memories)
      && (forall j, k ::
           j in edges && k in edges && Joins(edges[j], edges[k].source, edges[k].target, edges[k].relation)
           ==> j == k)
    }

    /** What `link` never adds; an import may. */
    ghost predicate NoSelfLoops()
      reads this
    {
      forall k :: k in edges ==> edges[k].source != edges[k].target
    }

    constructor ()
      ensures Valid() && NoSelfLoops() && memories == {} && edges == map[]
    {
      memories, edges := {}, map[];
    }

    /** Creates, updates or deletes one edge. freshId is the newly drawn uuid, now the clock. */
    method Link(source: Id, target: Id, relation: string, properties: string, delete: bool, freshId: Id, now: real)
      returns (r: LinkResult)
      requires Valid() && freshId !in edges
      modifies this`edges
      ensures Valid() && (old(NoSelfLoops()) ==> NoSelfLoops())
      ensures delete ==>
        && (forall k :: k in edges <==> k in old(edges) && !Joins(old(edges)[k], source, target, relation))
        && (forall k :: k in edges ==> edges[k] == old(edges)[k])
        && r == if exists k :: k in old(edges) && Joins(old(edges)[k], source, target, relation) then Deleted
                else EdgeNotFound
      ensures !delete ==>
        if source !in memories then r == SourceNotFound && edges == old(edges)
        else if target !in memories then r == TargetNotFound && edges == old(edges)
        else if source == target then r == SelfLoop && edges == old(edges)
        else
          && (r.Updated? || r == Created(freshId))
          && edges == old(edges)[r.id := Edge(source, target, relation, properties, now)]
          && (r.Updated? <==> exists k :: k in old(edges) && Joins(old(edges)[k], source, target, relation))
          && (r.Updated? ==> r.id in old(edges) && Joins(old(edges)[r.id], source, target, relation))
    {
      if delete {
        if exists k :: k in edges && SameTriple(edges[k], source, target, relation) {
          r := Deleted;
        } else {
          r := EdgeNotFound;
        }
        edges := map k | k in edges && !SameTriple(edges[k], source, target, relation) :: edges[k];
        return;
      }
      if source !in memories {
        return SourceNotFound;
      }
      if target !in memories {
        return TargetNotFound;
      }
      if source == target {
        return SelfLoop;
      }
      if k :| k in edges && SameTriple(edges[k], source, target, relation) {
        edges := edges[k := edges[k].(properties := properties, createdAt := now)];
        return Updated(k);
      }
      edges := edges[freshId := Edge(source, target, relation, properties, now)];
      r := Created(freshId);
    }

    /**
      Exactly the memories at distance 1..depth under the query's step relation, and exactly
      the edges fetched at memories nearer than depth, each reported once.
     */
    method Graph(id: Id, relation: Option<string>, direction: Direction, depthArg: int) returns (r: GraphResult)
      requires Valid()
      ensures id !in memories <==> r.NotFound?
      ensures r.Found? ==> r.start == id && r.depth == Clamp(depthArg)
      ensures r.Found? ==> r.nodes == Ball(Steps(edges, direction, relation), {id}, r.depth) - {id}
      ensures r.Found? ==>
        Reports(edges, r.edges,
                EdgesAt(edges, Ball(Steps(edges, direction, relation), {id}, r.depth - 1), direction, relation))
    {
      var depth := Clamp(depthArg);
      if id !in memories {
        return NotFound;
      }
      var g := Traverse(edges, id, direction, relation, depth);
      BallInMemories(edges, memories, id, direction, relation, depth);
      var nodes := set n | n in g.nodes - {id} && n in memories;
      r := Found(id, nodes, g.rows, depth);
      assert r.nodes == g.nodes - {id};
    }
  }

  function Clamp(depth: int): (d: nat)
    ensures (1 <= depth <= 5 ==> d == depth) && (depth < 1 ==> d == 1) && (depth > 5 ==> d == 5)
  {
    if depth < 1 then 1 else if depth > 5 then 5 else depth
  }

  /** Nothing the traversal discovers is lost when the memory rows are read back. */
  lemma {:induction false} BallInMemories(edges: EdgeTable, memories: set<Id>, start: Id, direction: Direction,
                                          relation: Option<string>, n: nat)
    requires start in memories
    requires forall k :: k in edges ==> edges[k].source in memories && edges[k].target in memories
    ensures Ball(Steps(edges, direction, relation), {start}, n) <= memories
  {
    if n > 0 {
      BallInMemories(edges, memories, start, direction, relation, n - 1);
    }
  }
}
