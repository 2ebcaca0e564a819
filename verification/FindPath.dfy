/**
  Shortest paths over the resolved edges of the code graph: the breadth-first search of
  `find_path`, its two caps, and the replay of the parent map.
 */
module FindPath {
  import opened Wrappers
  import opened Graphs
  import opened Ids
  import opened SearchQueue

  const PATH_MAX_DEPTH: int := 16
  const PATH_MAX_VISITED: nat := 10_000
  const CANDIDATE_LIMIT: nat := 20

  datatype Symbol = Symbol(name: string, qname: string, kind: string, lineStart: int, file: Id)

  datatype CodeRelation = CodeRelation(source: Id, target: Option<Id>, kind: string, confidence: string, line: int)

  /** The three tables the query reads; scans maps a file path to its file memory. */
  datatype CodeGraph = CodeGraph(symbols: map<Id, Symbol>, scans: map<string, Id>, relations: seq<CodeRelation>) {
    /** Foreign keys of code_relations. */
    ghost predicate Valid() {
      forall r :: r in relations ==> r.source in symbols && (r.target.Some? ==> r.target.value in symbols)
    }

    /** The resolved edges, the only ones a path may use. */
    ghost function ResolvedEdges(): Edges<Id> {
      set r | r in relations && r.target.Some? :: (r.source, r.target.value)
    }
  }

  datatype Candidate = Candidate(id: Id, name: string, qname: string, kind: string, file: string, line: int)

  datatype Hop = Hop(sourceQname: string, kind: string, confidence: string, targetQname: string, file: string,
                     line: int)

  datatype PathResult = PathResult(found: bool, hops: seq<Hop>, truncated: bool, maxDepth: int,
                                   candidatesA: Option<set<Candidate>>, candidatesB: Option<set<Candidate>>)

  // ----- resolving a name to a symbol

  /** The join of symbols and scans, restricted to one qualified (or bare) name. */
  function Matches(db: CodeGraph, name: string, qualified: bool): set<Candidate> {
    set s, f | s in db.symbols && f in db.scans
            && db.scans[f] == db.symbols[s].file && db.symbols[s].kind != "MODULE"
            && (if qualified then db.symbols[s].qname else db.symbols[s].name) == name
      :: Candidate(s, db.symbols[s].name, db.symbols[s].qname, db.symbols[s].kind, f, db.symbols[s].lineStart)
  }

  /** Exact qualified names first, bare names only if there are none. */
  function AllCandidates(db: CodeGraph, name: string): set<Candidate> {
    if Matches(db, name, true) != {} then Matches(db, name, true) else Matches(db, name, false)
  }

  /** A symbol that users can name: it is not the anchor of a file, and its file has been scanned under this path. */
  ghost predicate IsRow(db: CodeGraph, c: Candidate) {
    && c.id in db.symbols && c.file in db.scans && db.scans[c.file] == db.symbols[c.id].file
    && c.kind == db.symbols[c.id].kind && c.kind != "MODULE"
    && c.name == db.symbols[c.id].name && c.qname == db.symbols[c.id].qname && c.line == db.symbols[c.id].lineStart
  }

  ghost predicate Qualified(db: CodeGraph, name: string) {
    exists c :: IsRow(db, c) && c.qname == name
  }

  /** The candidates are the symbols with that qualified name or, only if there are none, those with that bare name. */
  lemma CandidatesAre(db: CodeGraph, name: string, c: Candidate)
    ensures c in AllCandidates(db, name) <==> IsRow(db, c) && (if Qualified(db, name) then c.qname else c.name) == name
  {
    forall x ensures x in Matches(db, name, true) <==> IsRow(db, x) && x.qname == name {
    }
    forall x ensures x in Matches(db, name, false) <==> IsRow(db, x) && x.name == name {
    }
    assert Qualified(db, name) <==> Matches(db, name, true) != {} by {
      if Qualified(db, name) {
        var x :| IsRow(db, x) && x.qname == name;
        assert x in Matches(db, name, true);
      }
    }
  }

  /** One symbol with that qualified name is the one that is meant, whatever bare names there are. */
  lemma QualifiedNameWins(db: CodeGraph, name: string, c: Candidate)
    requires IsRow(db, c) && c.qname == name && forall x :: IsRow(db, x) && x.qname == name ==> x == c
    ensures AllCandidates(db, name) == {c}
  {
    forall x ensures x in AllCandidates(db, name) <==> x == c {
      CandidatesAre(db, name, x);
    }
  }

  /** A function `run` and a method `Job.run` of one file. */
  function TwoRuns(f: Id, m: Id, file: Id, path: string): CodeGraph {
    CodeGraph(map[f := Symbol("run", "run", "FUNCTION", 1, file), m := Symbol("run", "Job.run", "METHOD", 5, file)],
              map[path := file], [])
  }

  /** The name `run` means the function. */
  lemma FunctionBeforeMethod(f: Id, m: Id, file: Id, path: string)
    requires f != m
    ensures AllCandidates(TwoRuns(f, m, file, path), "run") == {Candidate(f, "run", "run", "FUNCTION", path, 1)}
  {
    assert "FUNCTION"[0] != "MODULE"[0] && "run"[0] != "Job.run"[0];
    QualifiedNameWins(TwoRuns(f, m, file, path), "run", Candidate(f, "run", "run", "FUNCTION", path, 1));
  }

  /** Some rows of a query under a LIMIT; which ones the database does not say. */
  ghost predicate Limited(all: set<Candidate>, rows: set<Candidate>) {
    rows <= all && |rows| == if |all| <= 20 then |all| else 20
  }

  method TakeLimited(all: set<Candidate>) returns (rows: set<Candidate>)
    ensures Limited(all, rows)
  {
    var rest := all;
    rows := {};
    while rest != {} && |rows| < CANDIDATE_LIMIT
      invariant rows !! rest && rows + rest == all && |rows| <= CANDIDATE_LIMIT
      decreases rest
    {
      var c :| c in rest;
      rows, rest := rows + {c}, rest - {c};
    }
    assert |all| == |rows| + |rest|;
  }

  /** The LIMIT never hides an ambiguity. */
  lemma LimitedSingle(all: set<Candidate>, rows: set<Candidate>)
    requires Limited(all, rows)
    ensures |rows| == 1 <==> |all| == 1
    ensures |rows| == 1 ==> rows == all
  {
    if |all| == |rows| {
      assert |all - rows| == |all| - |rows|;
      assert all == rows + (all - rows);
    }
  }

  method SymbolCandidates(db: CodeGraph, name: string) returns (rows: set<Candidate>)
    ensures Limited(AllCandidates(db, name), rows)
  {
    rows := TakeLimited(AllCandidates(db, name));
  }

  // ----- the search

  /** Why a node was visited: its predecessor and the row that led to it. */
  datatype Step = Step(prev: Id, edge: CodeRelation)

  type Visited = map<Id, Option<Step>>

  function Outgoing(rows: seq<CodeRelation>, u: Id): (r: seq<CodeRelation>)
    ensures forall e :: e in r <==> e in rows && e.source == u && e.target.Some?
  {
    if rows == [] then []
    else (if rows[0].source == u && rows[0].target.Some? then [rows[0]] else []) + Outgoing(rows[1..], u)
  }

  ghost function Targets(rows: seq<CodeRelation>): set<Id> {
    set e | e in rows && e.target.Some? :: e.target.value
  }

  lemma OutgoingTargets(db: CodeGraph, u: Id)
    ensures Targets(Outgoing(db.relations, u)) == Successors(db.ResolvedEdges(), {u})
  {
    forall v | v in Targets(Outgoing(db.relations, u)) ensures v in Successors(db.ResolvedEdges(), {u}) {
      var e :| e in Outgoing(db.relations, u) && e.target.Some? && e.target.value == v;
      assert (u, v) in db.ResolvedEdges();
    }
  }

  /** v is at its recorded distance and, unless it is the start, was visited one step nearer, by a resolved row. */
  ghost predicate Hangs(db: CodeGraph, start: Id, visited: Visited, dist: map<Id, nat>, v: Id)
    requires v in visited && v in dist
  {
    && AtDistance(db.ResolvedEdges(), {start}, v, dist[v])
    && (v == start <==> visited[v].None?)
    && (v != start ==>
          var step := visited[v].value;
          && step.prev in visited && step.prev in dist && dist[step.prev] + 1 == dist[v]
          && step.edge in db.relations && step.edge.source == step.prev && step.edge.target == Some(v))
  }

  /** The parent map is a tree of shortest paths rooted in the start. */
  ghost predicate ParentTree(db: CodeGraph, start: Id, visited: Visited, dist: map<Id, nat>) {
    && dist.Keys == visited.Keys
    && start in visited && dist[start] == 0
    && (forall v {:trigger Hangs(db, start, visited, dist, v)} :: v in visited ==> Hangs(db, start, visited, dist, v))
  }

  lemma NextDistance(E: Edges<Id>, start: Id, u: Id, v: Id, d: nat)
    requires u in Ball(E, {start}, d) && (u, v) in E && v !in Ball(E, {start}, d)
    ensures AtDistance(E, {start}, v, d + 1)
  {
  }

  lemma VisitKeepsTree(db: CodeGraph, start: Id, visited: Visited, dist: map<Id, nat>, nxt: Id, step: Step, d: nat,
                       visited': Visited, dist': map<Id, nat>)
    requires ParentTree(db, start, visited, dist)
    requires nxt !in visited && AtDistance(db.ResolvedEdges(), {start}, nxt, d + 1)
    requires step.prev in visited && dist[step.prev] == d
    requires step.edge in db.relations && step.edge.source == step.prev && step.edge.target == Some(nxt)
    requires visited' == visited[nxt := Some(step)] && dist' == dist[nxt := d + 1]
    ensures ParentTree(db, start, visited', dist')
  {
    forall v | v in visited'
      ensures Hangs(db, start, visited', dist', v)
    {
      if v != nxt {
        assert Hangs(db, start, visited, dist, v);
      }
    }
  }

  lemma AppendTarget(edges: seq<CodeRelation>, i: nat)
    requires i < |edges| && forall e :: e in edges ==> e.target.Some?
    ensures Targets(edges[..i + 1]) == Targets(edges[..i]) + {edges[i].target.value}
    ensures Targets(edges[..i + 1]) <= Targets(edges)
  {
    assert edges[..i + 1] == edges[..i] + [edges[i]];
  }

  /** The outcome of expanding one node. */
  datatype Expansion = Done | GoalReached | CapReached

  /** Where the expansion of one node stands once the targets T have been looked at. */
  ghost predicate Expanding(db: CodeGraph, start: Id, depth: nat, visited0: Visited, dist0: map<Id, nat>, T: set<Id>,
                            visited: Visited, extra: Queue, dist: map<Id, nat>)
  {
    && ParentTree(db, start, visited, dist)
    && visited.Keys == visited0.Keys + T
    && Nodes(extra) == T - visited0.Keys
    && DistinctNodes(extra)
    && (forall x :: x in extra ==> x.depth == depth + 1 && x.node in dist && dist[x.node] == depth + 1)
    && (forall v :: v in dist0 ==> v in dist && dist[v] == dist0[v])
  }

  lemma ExpandingVisit(db: CodeGraph, start: Id, depth: nat, visited0: Visited, dist0: map<Id, nat>, T: set<Id>,
                       visited: Visited, extra: Queue, dist: map<Id, nat>, nxt: Id, step: Step)
    requires Expanding(db, start, depth, visited0, dist0, T, visited, extra, dist)
    requires dist0.Keys == visited0.Keys && step.prev in dist0 && dist0[step.prev] == depth
    requires nxt !in visited && AtDistance(db.ResolvedEdges(), {start}, nxt, depth + 1)
    requires step.edge in db.relations && step.edge.source == step.prev && step.edge.target == Some(nxt)
    ensures Expanding(db, start, depth, visited0, dist0, T + {nxt}, visited[nxt := Some(step)],
                      extra + [Waiting(nxt, depth + 1)], dist[nxt := depth + 1])
  {
    VisitKeepsTree(db, start, visited, dist, nxt, step, depth, visited[nxt := Some(step)], dist[nxt := depth + 1]);
    AppendNode(extra, nxt, depth + 1);
    assert Nodes(extra + [Waiting(nxt, depth + 1)]) == T + {nxt} - visited0.Keys;
  }

  /** The body of the inner loop: looks at one outgoing row. */
  method VisitTarget(db: CodeGraph, start: Id, goal: Id, current: Id, depth: nat, edge: CodeRelation, visited1: Visited,
                     extra1: Queue,
                     ghost visited0: Visited, ghost dist0: map<Id, nat>, ghost T: set<Id>, ghost dist1: map<Id, nat>)
    returns (visited: Visited, extra: Queue, outcome: Expansion, ghost dist: map<Id, nat>)
    requires edge in db.relations && edge.source == current && edge.target.Some?
    requires Expanding(db, start, depth, visited0, dist0, T, visited1, extra1, dist1)
    requires dist0.Keys == visited0.Keys && current in dist0 && dist0[current] == depth
    requires current in Ball(db.ResolvedEdges(), {start}, depth)
        && Ball(db.ResolvedEdges(), {start}, depth) <= visited0.Keys
    requires goal !in visited1
    ensures Expanding(db, start, depth, visited0, dist0, T + {edge.target.value}, visited, extra, dist)
    ensures outcome == GoalReached <==> goal in visited
    ensures outcome == GoalReached ==> dist[goal] == depth + 1
    ensures outcome == CapReached ==> |visited| >= PATH_MAX_VISITED
  {
    var nxt := edge.target.value;
    visited, extra, dist, outcome := visited1, extra1, dist1, Done;
    if nxt !in visited {
      assert (current, nxt) in db.ResolvedEdges();
      NextDistance(db.ResolvedEdges(), start, current, nxt, depth);
      ExpandingVisit(db, start, depth, visited0, dist0, T, visited, extra, dist, nxt, Step(current, edge));
      visited := visited[nxt := Some(Step(current, edge))];
      dist := dist[nxt := depth + 1];
      extra := extra + [Waiting(nxt, depth + 1)];
      if nxt == goal {
        outcome := GoalReached;
      } else if |visited| >= PATH_MAX_VISITED {
        outcome := CapReached;
      }
    }
  }

  /** The inner loop: visits the unvisited targets of `current`, in row order, until the goal or the cap is reached. */
  method Expand(db: CodeGraph, start: Id, goal: Id, current: Id, depth: nat, visited0: Visited,
                ghost dist0: map<Id, nat>)
    returns (visited: Visited, extra: Queue, outcome: Expansion, ghost dist: map<Id, nat>, ghost T: set<Id>)
    requires ParentTree(db, start, visited0, dist0)
    requires current in visited0 && dist0[current] == depth
    requires Ball(db.ResolvedEdges(), {start}, depth) <= visited0.Keys
    requires goal !in visited0
    ensures Expanding(db, start, depth, visited0, dist0, T, visited, extra, dist)
    ensures outcome == GoalReached <==> goal in visited
    ensures outcome == GoalReached ==> dist[goal] == depth + 1
    ensures outcome == CapReached ==> |visited| >= PATH_MAX_VISITED
    ensures outcome == Done ==> T == Targets(Outgoing(db.relations, current))
  {
    var edges := Outgoing(db.relations, current);
    assert Hangs(db, start, visited0, dist0, current);
    visited, extra, dist, T := visited0, [], dist0, {};
    outcome := Done;
    var i := 0;
    while i < |edges| && outcome == Done
      invariant i <= |edges|
      invariant Expanding(db, start, depth, visited0, dist0, T, visited, extra, dist)
      invariant T == Targets(edges[..i])
      invariant outcome == GoalReached <==> goal in visited
      invariant outcome == GoalReached ==> dist[goal] == depth + 1
      invariant outcome == CapReached ==> |visited| >= PATH_MAX_VISITED
    {
      assert edges[i] in edges;
      AppendTarget(edges, i);
      visited, extra, outcome, dist :=
        VisitTarget(db, start, goal, current, depth, edges[i], visited, extra, visited0, dist0, T, dist);
      T := T + {edges[i].target.value};
      i := i + 1;
    }
    assert outcome == Done ==> edges[..i] == edges;
  }

  ghost predicate Unreachable(db: CodeGraph, start: Id, goal: Id) {
    forall n: nat :: goal !in Ball(db.ResolvedEdges(), {start}, n)
  }

  /** Everything the search could ever visit. */
  ghost function AllNodes(db: CodeGraph, start: Id): set<Id> {
    {start} + set e | e in db.ResolvedEdges() :: e.1
  }

  lemma VisitedAreNodes(db: CodeGraph, start: Id, visited: Visited, dist: map<Id, nat>)
    requires ParentTree(db, start, visited, dist)
    ensures visited.Keys <= AllNodes(db, start)
  {
    forall v | v in visited ensures v in AllNodes(db, start) {
      assert Hangs(db, start, visited, dist, v);
      if v != start {
        var step := visited[v].value;
        assert (step.prev, v) in db.ResolvedEdges();
      }
    }
  }

  ghost predicate AllAt(q: Queue, d: nat, dist: map<Id, nat>) {
    DistinctNodes(q) && forall x :: x in q ==> x.depth == d && x.node in dist && dist[x.node] == d
  }

  /**
    The outer loop while neither cap has bitten.  The queue is qa + qb: P has been
    expanded, qa completes layer d, and qb is what layer d + 1 consists of so far.
   */
  ghost predicate Searching(db: CodeGraph, start: Id, goal: Id, maxDepth: int, visited: Visited, dist: map<Id, nat>,
                            qa: Queue, qb: Queue, d: nat, P: set<Id>)
  {
    && ParentTree(db, start, visited, dist)
    && AllAt(qa, d, dist) && AllAt(qb, d + 1, dist)
    && Layered(db.ResolvedEdges(), {start}, d, P, Nodes(qa), Nodes(qb))
    && visited.Keys == P + Nodes(qa) + Nodes(qb)
    && goal !in visited
    && (qb != [] ==> d < maxDepth)
    && (d > 0 ==> d <= maxDepth)
  }

  lemma NextLayer(db: CodeGraph, start: Id, goal: Id, maxDepth: int, visited: Visited, dist: map<Id, nat>, qb: Queue,
                  d: nat, P: set<Id>)
    requires Searching(db, start, goal, maxDepth, visited, dist, [], qb, d, P) && qb != []
    ensures Searching(db, start, goal, maxDepth, visited, dist, qb, [], d + 1, P)
  {
    assert Nodes([]) == {};
    LayerAdvance(db.ResolvedEdges(), {start}, d, P, Nodes(qb));
  }

  /** Newly discovered nodes join layer d + 1. */
  lemma JoinLayer(qb: Queue, extra: Queue, d: nat, dist0: map<Id, nat>, dist: map<Id, nat>)
    requires AllAt(qb, d, dist0) && (forall v :: v in dist0 ==> v in dist && dist[v] == dist0[v])
    requires DistinctNodes(extra) && Nodes(qb) !! Nodes(extra)
    requires forall x :: x in extra ==> x.depth == d && x.node in dist && dist[x.node] == d
    ensures AllAt(qb + extra, d, dist) && Nodes(qb + extra) == Nodes(qb) + Nodes(extra)
  {
    SplitNodes(qb, extra);
    DistinctAppend(qb, extra);
  }

  lemma ExpandedLayer(db: CodeGraph, start: Id, goal: Id, maxDepth: int, visited0: Visited, dist0: map<Id, nat>,
                      qa: Queue, qb: Queue, d: nat, P: set<Id>, T: set<Id>, visited: Visited, extra: Queue,
                      dist: map<Id, nat>)
    requires Searching(db, start, goal, maxDepth, visited0, dist0, qa, qb, d, P) && qa != [] && d < maxDepth
    requires Expanding(db, start, d, visited0, dist0, T, visited, extra, dist)
    requires T == Successors(db.ResolvedEdges(), {qa[0].node}) && goal !in visited
    ensures Searching(db, start, goal, maxDepth, visited, dist, qa[1..], qb + extra, d, P + {qa[0].node})
  {
    PopNode(qa);
    assert AllAt(qa[1..], d, dist) by {
      assert forall x :: x in qa[1..] ==> x in qa;
    }
    assert Nodes(extra) == T - (P + Nodes(qa) + Nodes(qb));
    JoinLayer(qb, extra, d + 1, dist0, dist);
    LayerExpand(db.ResolvedEdges(), {start}, d, P, Nodes(qa), Nodes(qb), qa[0].node);
  }

  /** Once the queue is empty, everything reachable has been visited. */
  lemma NothingLeft(db: CodeGraph, start: Id, goal: Id, maxDepth: int, visited: Visited, dist: map<Id, nat>, d: nat,
                    P: set<Id>)
    requires Searching(db, start, goal, maxDepth, visited, dist, [], [], d, P)
    ensures Unreachable(db, start, goal)
  {
    assert Nodes([]) == {};
    forall n: nat ensures goal !in Ball(db.ResolvedEdges(), {start}, n) {
      LayersDone(db.ResolvedEdges(), {start}, d, P, n);
    }
  }

  lemma Started(db: CodeGraph, start: Id, goal: Id, maxDepth: int)
    requires start != goal
    ensures Searching(db, start, goal, maxDepth, map[start := None], map[start := 0], [Waiting(start, 0)], [], 0, {})
  {
    var visited: Visited, dist: map<Id, nat> := map[start := None], map[start := 0];
    assert Nodes([Waiting(start, 0)]) == {start} && Nodes([]) == {};
    assert Successors(db.ResolvedEdges(), {}) == {};
    assert Hangs(db, start, visited, dist, start);
  }

  /** When the node cap bites, that many nodes really are within the depth cap. */
  lemma CapIsReal(db: CodeGraph, start: Id, goal: Id, maxDepth: int, visited0: Visited, dist0: map<Id, nat>,
                  qa: Queue, qb: Queue, d: nat, P: set<Id>, T: set<Id>, visited: Visited, extra: Queue,
                  dist: map<Id, nat>)
    requires Searching(db, start, goal, maxDepth, visited0, dist0, qa, qb, d, P) && d < maxDepth
    requires Expanding(db, start, d, visited0, dist0, T, visited, extra, dist)
    ensures |visited| <= |Ball(db.ResolvedEdges(), {start}, maxDepth)|
  {
    var E := db.ResolvedEdges();
    LayerDistances(E, {start}, d, P, Nodes(qa), Nodes(qb));
    BallMonotone(E, {start}, d, d + 1);
    BallMonotone(E, {start}, d + 1, maxDepth);
    forall v | v in visited ensures v in Ball(E, {start}, d + 1) {
      if v !in visited0 {
        assert v in Nodes(extra);
        assert Hangs(db, start, visited, dist, v);
      }
    }
    SubsetSize(visited.Keys, Ball(E, {start}, maxDepth));
  }

  /** The outer loop's invariant: searching, or, once the depth cap has bitten, emptying the queue. */
  ghost predicate OuterLoop(db: CodeGraph, start: Id, goal: Id, maxDepth: int, truncated: bool, visited: Visited,
                            dist: map<Id, nat>, queue: Queue, qa: Queue, qb: Queue, d: nat, P: set<Id>)
  {
    if truncated then
      && ParentTree(db, start, visited, dist) && goal !in visited
      && (maxDepth >= 0 ==> goal !in Ball(db.ResolvedEdges(), {start}, maxDepth))
      && (forall i :: 0 <= i < |queue| ==> queue[i].depth >= maxDepth)
    else
      && queue == qa + qb
      && Searching(db, start, goal, maxDepth, visited, dist, qa, qb, d, P)
  }

  /** The front layer is used up: the discovered nodes become the front layer. */
  lemma FrontLayer(db: CodeGraph, start: Id, goal: Id, maxDepth: int, visited: Visited, dist: map<Id, nat>,
                   queue: Queue, qa: Queue, qb: Queue, d: nat, P: set<Id>) returns (qa': Queue, qb': Queue, d': nat)
    requires OuterLoop(db, start, goal, maxDepth, false, visited, dist, queue, qa, qb, d, P) && queue != []
    ensures OuterLoop(db, start, goal, maxDepth, false, visited, dist, queue, qa', qb', d', P)
    ensures qa' != [] && qa'[0] == queue[0] && queue[0].depth == d'
  {
    qa', qb', d' := qa, qb, d;
    if qa == [] {
      NextLayer(db, start, goal, maxDepth, visited, dist, qb, d, P);
      qa', qb', d' := qb, [], d + 1;
    }
    assert qa'[0] in qa';
  }

  /** The depth cap bites: every node within it has been visited, and the rest of the queue lies at the cap too. */
  lemma DepthCapBites(db: CodeGraph, start: Id, goal: Id, maxDepth: int, visited: Visited, dist: map<Id, nat>,
                      queue: Queue, qa: Queue, qb: Queue, d: nat, P: set<Id>)
    requires OuterLoop(db, start, goal, maxDepth, false, visited, dist, queue, qa, qb, d, P)
    requires qa != [] && d >= maxDepth
    ensures OuterLoop(db, start, goal, maxDepth, true, visited, dist, queue[1..], qa, qb, d, P)
  {
    assert qb == [] && queue == qa;
    assert forall i :: 0 <= i < |queue| ==> queue[i] in qa;
    if maxDepth >= 0 {
      BallMonotone(db.ResolvedEdges(), {start}, maxDepth, d);
    }
  }

  /** One round of the outer loop below the depth cap: expands the front of the queue. */
  method Round(db: CodeGraph, start: Id, goal: Id, maxDepth: int, visited0: Visited, queue0: Queue,
               ghost dist0: map<Id, nat>, ghost qa: Queue, ghost qb: Queue, ghost d: nat, ghost P: set<Id>)
    returns (visited: Visited, queue: Queue, outcome: Expansion, ghost dist: map<Id, nat>, ghost extra: Queue)
    requires OuterLoop(db, start, goal, maxDepth, false, visited0, dist0, queue0, qa, qb, d, P)
    requires qa != [] && d < maxDepth
    ensures ParentTree(db, start, visited, dist)
    ensures outcome == GoalReached <==> goal in visited
    ensures outcome == GoalReached ==> dist[goal] == d + 1
    ensures outcome == CapReached ==> |Ball(db.ResolvedEdges(), {start}, maxDepth)| >= 10_000
    ensures outcome == Done ==>
      OuterLoop(db, start, goal, maxDepth, false, visited, dist, queue, qa[1..], qb + extra, d, P + {qa[0].node})
    ensures qa[0].node in AllNodes(db, start) - P
  {
    PopNode(qa);
    VisitedAreNodes(db, start, visited0, dist0);
    ghost var T;
    var more;
    assert queue0[0] == qa[0] && qa[0] in qa && queue0[1..] == qa[1..] + qb;
    visited, more, outcome, dist, T := Expand(db, start, goal, queue0[0].node, queue0[0].depth, visited0, dist0);
    if outcome == Done {
      OutgoingTargets(db, queue0[0].node);
      ExpandedLayer(db, start, goal, maxDepth, visited0, dist0, qa, qb, d, P, T, visited, more, dist);
    } else if outcome == CapReached {
      CapIsReal(db, start, goal, maxDepth, visited0, dist0, qa, qb, d, P, T, visited, more, dist);
    }
    queue, extra := queue0[1..] + more, more;
    assert queue == qa[1..] + (qb + more);
  }

  /** The body of the outer loop: at the depth cap the front of the queue is dropped, below it is expanded. */
  method OuterStep(db: CodeGraph, start: Id, goal: Id, maxDepth: int, visited0: Visited, queue0: Queue,
                   truncated0: bool,
                   ghost dist0: map<Id, nat>, ghost qa0: Queue, ghost qb0: Queue, ghost d0: nat, ghost P0: set<Id>)
    returns (visited: Visited, queue: Queue, truncated: bool, outcome: Expansion,
             ghost dist: map<Id, nat>, ghost qa: Queue, ghost qb: Queue, ghost d: nat, ghost P: set<Id>)
    requires OuterLoop(db, start, goal, maxDepth, truncated0, visited0, dist0, queue0, qa0, qb0, d0, P0) && queue0 != []
    ensures outcome == Done ==> OuterLoop(db, start, goal, maxDepth, truncated, visited, dist, queue, qa, qb, d, P)
    ensures outcome == Done ==>
      if truncated then !truncated0 || (|queue| < |queue0| && P == P0)
      else !truncated0 && P0 < P && P - P0 <= AllNodes(db, start)
    ensures ParentTree(db, start, visited, dist)
    ensures outcome == GoalReached <==> goal in visited
    ensures outcome == GoalReached ==> !truncated && dist[goal] <= maxDepth
    ensures outcome == CapReached ==> truncated && (maxDepth >= 0 ==> CapExplains(db, start, goal, maxDepth))
  {
    visited, queue, truncated, outcome, dist := visited0, queue0, truncated0, Done, dist0;
    qa, qb, d, P := qa0, qb0, d0, P0;
    if !truncated0 {
      qa, qb, d := FrontLayer(db, start, goal, maxDepth, visited0, dist0, queue0, qa0, qb0, d0, P0);
    }
    if queue0[0].depth >= maxDepth {
      if !truncated0 {
        DepthCapBites(db, start, goal, maxDepth, visited0, dist0, queue0, qa, qb, d, P0);
      }
      truncated := true;
      queue := queue0[1..];
    } else {
      ghost var extra;
      visited, queue, outcome, dist, extra := Round(db, start, goal, maxDepth, visited0, queue0, dist0, qa, qb, d, P0);
      truncated := outcome == CapReached;
      qa, qb, P := qa[1..], qb + extra, P + {qa[0].node};
    }
  }

  /** Why a truncated search may have missed the goal. */
  ghost predicate CapExplains(db: CodeGraph, start: Id, goal: Id, maxDepth: nat) {
    || goal !in Ball(db.ResolvedEdges(), {start}, maxDepth)
    || |Ball(db.ResolvedEdges(), {start}, maxDepth)| >= 10_000
  }

  /** The breadth-first search: fills the parent map from the start until the goal, a cap, or the end. */
  method Search(db: CodeGraph, start: Id, goal: Id, maxDepth: int)
    returns (visited: Visited, truncated: bool, ghost dist: map<Id, nat>)
    requires start != goal
    ensures ParentTree(db, start, visited, dist)
    ensures goal in visited ==> !truncated && dist[goal] <= maxDepth
    ensures goal !in visited && !truncated ==> Unreachable(db, start, goal)
    ensures truncated && maxDepth >= 0 ==> CapExplains(db, start, goal, maxDepth)
  {
    visited, truncated, dist := map[start := None], false, map[start := 0];
    var queue: Queue := [Waiting(start, 0)];
    ghost var qa: Queue, qb: Queue, d: nat, P: set<Id> := queue, [], 0, {};
    Started(db, start, goal, maxDepth);
    while queue != []
      invariant OuterLoop(db, start, goal, maxDepth, truncated, visited, dist, queue, qa, qb, d, P)
      decreases !truncated, AllNodes(db, start) - P, |queue|
    {
      var outcome;
      visited, queue, truncated, outcome, dist, qa, qb, d, P :=
        OuterStep(db, start, goal, maxDepth, visited, queue, truncated, dist, qa, qb, d, P);
      if outcome != Done {
        return;
      }
    }
    if !truncated {
      NothingLeft(db, start, goal, maxDepth, visited, dist, d, P);
    }
  }

  // ----- replaying the parent map

  /** The chain is the list of rows from p's first node to its last. */
  ghost predicate RowsAlong(db: CodeGraph, p: seq<Id>, chain: seq<CodeRelation>) {
    && |p| == |chain| + 1
    && forall i :: 0 <= i < |chain|
        ==> chain[i] in db.relations && chain[i].source == p[i] && chain[i].target == Some(p[i + 1])
  }

  lemma RowsMakeWalk(db: CodeGraph, p: seq<Id>, chain: seq<CodeRelation>)
    requires RowsAlong(db, p, chain)
    ensures IsWalk(db.ResolvedEdges(), p)
    ensures forall r :: r in chain ==> r in db.relations && r.target.Some?
  {
    forall i | 0 <= i < |p| - 1 ensures (p[i], p[i + 1]) in db.ResolvedEdges() {
      assert chain[i] in db.relations;
    }
    forall r | r in chain ensures r in db.relations && r.target.Some? {
      var i :| 0 <= i < |chain| && chain[i] == r;
      assert chain[i].target == Some(p[i + 1]);
    }
  }

  lemma PrependRow(db: CodeGraph, p: seq<Id>, chain: seq<CodeRelation>, u: Id, r: CodeRelation)
    requires RowsAlong(db, p, chain) && r in db.relations && r.source == u && r.target == Some(p[0])
    ensures RowsAlong(db, [u] + p, [r] + chain)
  {
  }

  /** Follows the parents from the goal back to the start. */
  method Replay(db: CodeGraph, start: Id, goal: Id, visited: Visited, ghost dist: map<Id, nat>)
    returns (chain: seq<CodeRelation>, ghost p: seq<Id>)
    requires ParentTree(db, start, visited, dist) && goal in visited
    ensures RowsAlong(db, p, chain) && p[0] == start && p[|p| - 1] == goal
    ensures |chain| == dist[goal]
  {
    var node := goal;
    chain, p := [], [goal];
    assert Hangs(db, start, visited, dist, node);
    while visited[node].Some?
      invariant node in visited && Hangs(db, start, visited, dist, node)
      invariant RowsAlong(db, p, chain) && p[0] == node && p[|p| - 1] == goal
      invariant |chain| + dist[node] == dist[goal]
      decreases dist[node]
    {
      var step := visited[node].value;
      PrependRow(db, p, chain, step.prev, step.edge);
      chain, p := [step.edge] + chain, [step.prev] + p;
      node := step.prev;
      assert Hangs(db, start, visited, dist, node);
    }
  }

  /** Where a symbol lives: some scan of its file, or nothing if the file is not scanned. */
  ghost predicate IsRelPath(db: CodeGraph, s: Id, file: string, line: int)
    requires s in db.symbols
  {
    if exists f :: f in db.scans && db.scans[f] == db.symbols[s].file
    then file in db.scans && db.scans[file] == db.symbols[s].file && line == db.symbols[s].lineStart
    else file == "" && line == 0
  }

  ghost predicate IsHop(db: CodeGraph, r: CodeRelation, hop: Hop)
    requires r.source in db.symbols && r.target.Some? && r.target.value in db.symbols
  {
    && hop.sourceQname == db.symbols[r.source].qname && hop.targetQname == db.symbols[r.target.value].qname
    && hop.kind == r.kind && hop.confidence == r.confidence
    && exists line :: IsRelPath(db, r.source, hop.file, line) && hop.line == if r.line != 0 then r.line else line
  }

  /** The hops describe the rows along p, one by one. */
  ghost predicate HopsAlong(db: CodeGraph, p: seq<Id>, hops: seq<Hop>)
    requires db.Valid()
  {
    exists chain :: RowsAlong(db, p, chain) && RenderedAs(db, chain, hops)
  }

  ghost predicate RenderedAs(db: CodeGraph, chain: seq<CodeRelation>, hops: seq<Hop>)
    requires db.Valid()
  {
    && |hops| == |chain|
    && forall i :: 0 <= i < |chain|
        ==> chain[i] in db.relations && chain[i].target.Some? && IsHop(db, chain[i], hops[i])
  }

  method RelPathFor(db: CodeGraph, s: Id) returns (file: string, line: int)
    requires s in db.symbols
    ensures IsRelPath(db, s, file, line)
  {
    file, line := "", 0;
    if f :| f in db.scans && db.scans[f] == db.symbols[s].file {
      file, line := f, db.symbols[s].lineStart;
    }
  }

  method RenderHops(db: CodeGraph, chain: seq<CodeRelation>) returns (hops: seq<Hop>)
    requires db.Valid() && forall r :: r in chain ==> r in db.relations && r.target.Some?
    ensures RenderedAs(db, chain, hops)
  {
    hops := [];
    for i := 0 to |chain|
      invariant |hops| == i
      invariant forall j ::
        0 <= j < i ==> chain[j] in db.relations && chain[j].target.Some? && IsHop(db, chain[j], hops[j])
    {
      var r := chain[i];
      assert r in chain;
      var file, line := RelPathFor(db, r.source);
      hops := hops + [Hop(db.symbols[r.source].qname, r.kind, r.confidence, db.symbols[r.target.value].qname,
                          file, if r.line != 0 then r.line else line)];
      assert IsHop(db, r, hops[i]);
    }
  }

  // ----- the answer

  ghost predicate ShortestWalk(db: CodeGraph, p: seq<Id>, u: Id, v: Id) {
    && WalkFromTo(db.ResolvedEdges(), p, u, v)
    && forall q :: WalkFromTo(db.ResolvedEdges(), q, u, v) ==> |p| <= |q|
  }

  lemma DistanceIsShortest(db: CodeGraph, p: seq<Id>, u: Id, v: Id)
    requires WalkFromTo(db.ResolvedEdges(), p, u, v) && AtDistance(db.ResolvedEdges(), {u}, v, |p| - 1)
    ensures ShortestWalk(db, p, u, v)
  {
    forall q | WalkFromTo(db.ResolvedEdges(), q, u, v) ensures |p| <= |q| {
      if |q| < |p| {
        WalkInBall(db.ResolvedEdges(), {u}, q, |p| - 2);
      }
    }
  }

  lemma UnreachableNoWalk(db: CodeGraph, u: Id, v: Id)
    requires Unreachable(db, u, v)
    ensures forall p :: !WalkFromTo(db.ResolvedEdges(), p, u, v)
  {
    forall p | WalkFromTo(db.ResolvedEdges(), p, u, v) ensures false {
      WalkInBall(db.ResolvedEdges(), {u}, p, |p| - 1);
    }
  }

  /** What a search between two symbols answers. */
  datatype Answer = Answer(found: bool, hops: seq<Hop>, truncated: bool)

  /**
    A found path is a shortest resolved path, within the depth cap and not truncated.  Nothing
    found and nothing truncated means no path of any length.  A truncated answer means there is
    no path within the depth cap, or at least 10,000 symbols lie within it.
   */
  ghost predicate Exact(db: CodeGraph, u: Id, v: Id, maxDepth: int, r: Answer)
    requires db.Valid()
  {
    && (r.found ==> !r.truncated && exists p :: ShortestWalk(db, p, u, v) && HopsAlong(db, p, r.hops))
    && (r.found ==> |r.hops| <= maxDepth || u == v)
    && (!r.found ==> r.hops == [])
    && (!r.found && !r.truncated ==> forall q :: !WalkFromTo(db.ResolvedEdges(), q, u, v))
    && (r.truncated && maxDepth >= 0 ==> CapExplains(db, u, v, maxDepth))
    && (u == v ==> r.found)
  }

  method FindBetween(db: CodeGraph, start: Id, goal: Id, maxDepth: int) returns (r: Answer)
    requires db.Valid()
    ensures Exact(db, start, goal, maxDepth, r)
  {
    if start == goal {
      r := Answer(true, [], false);
      ghost var p := [start];
      assert RowsAlong(db, p, []) && RenderedAs(db, [], r.hops);
      DistanceIsShortest(db, p, start, goal);
      return;
    }
    var visited, truncated; ghost var dist;
    visited, truncated, dist := Search(db, start, goal, maxDepth);
    if goal !in visited {
      if !truncated {
        UnreachableNoWalk(db, start, goal);
      }
      r := Answer(false, [], truncated);
    } else {
      ghost var p;
      var chain;
      chain, p := Replay(db, start, goal, visited, dist);
      assert Hangs(db, start, visited, dist, goal);
      RowsMakeWalk(db, p, chain);
      DistanceIsShortest(db, p, start, goal);
      var hops := RenderHops(db, chain);
      assert HopsAlong(db, p, hops);
      r := Answer(true, hops, false);
    }
  }

  /** Below the node cap the search is a decision procedure for paths within the depth cap. */
  lemma ExactDecides(db: CodeGraph, u: Id, v: Id, maxDepth: nat, r: Answer)
    requires db.Valid() && Exact(db, u, v, maxDepth, r)
    requires |Ball(db.ResolvedEdges(), {u}, maxDepth)| < 10_000
    ensures r.found <==> exists q :: WalkFromTo(db.ResolvedEdges(), q, u, v) && |q| - 1 <= maxDepth
  {
    BallIsReachability(db.ResolvedEdges(), u, v, maxDepth);
    if r.found {
      var p :| ShortestWalk(db, p, u, v) && HopsAlong(db, p, r.hops);
      assert WalkFromTo(db.ResolvedEdges(), p, u, v);
      assert |p| == |r.hops| + 1;
    }
  }

  // ----- find_path

  /** The name stands for exactly one symbol, u. */
  ghost predicate Names(db: CodeGraph, name: string, u: Id) {
    exists c :: AllCandidates(db, name) == {c} && c.id == u
  }

  method FindPath(db: CodeGraph, a: string, b: string, maxDepthArg: int) returns (result: PathResult)
    requires db.Valid()
    ensures result.maxDepth == if maxDepthArg < 16 then maxDepthArg else 16
    ensures |AllCandidates(db, a)| != 1 ==>
      && result.candidatesA.Some? && Limited(AllCandidates(db, a), result.candidatesA.value)
      && result == PathResult(false, [], false, result.maxDepth, result.candidatesA, None)
    ensures |AllCandidates(db, a)| == 1 && |AllCandidates(db, b)| != 1 ==>
      && result.candidatesB.Some? && Limited(AllCandidates(db, b), result.candidatesB.value)
      && result == PathResult(false, [], false, result.maxDepth, None, result.candidatesB)
    ensures forall u, v :: Names(db, a, u) && Names(db, b, v) ==>
      && result.candidatesA.None? && result.candidatesB.None?
      && Exact(db, u, v, result.maxDepth, Answer(result.found, result.hops, result.truncated))
  {
    var maxDepth := if maxDepthArg < PATH_MAX_DEPTH then maxDepthArg else PATH_MAX_DEPTH;
    result := PathResult(false, [], false, maxDepth, None, None);
    var aCands := SymbolCandidates(db, a);
    var bCands := SymbolCandidates(db, b);
    LimitedSingle(AllCandidates(db, a), aCands);
    LimitedSingle(AllCandidates(db, b), bCands);
    if |aCands| != 1 {
      result := result.(candidatesA := Some(aCands));
    } else if |bCands| != 1 {
      result := result.(candidatesB := Some(bCands));
    } else {
      var ca :| ca in aCands;
      var cb :| cb in bCands;
      Singleton(aCands, ca);
      Singleton(bCands, cb);
      var r := FindBetween(db, ca.id, cb.id, maxDepth);
      result := result.(found := r.found, hops := r.hops, truncated := r.truncated);
      assert Answer(result.found, result.hops, result.truncated) == r;
    }
  }

  lemma Singleton(s: set<Candidate>, c: Candidate)
    requires |s| == 1 && c in s
    ensures s == {c}
  {
    assert |s - {c}| == 0;
  }
}
