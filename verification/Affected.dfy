/**
  What depends on a symbol: the reverse traversal over resolved relations, which lists resolved
  relations and those that merely name the symbol, up to a depth and a number of results.
 */
module Affected {
  import opened Graphs
  import opened Ids
  import opened SearchQueue
  import opened Wrappers

  const AFFECTED_MAX_DEPTH: int := 8
  const AFFECTED_MAX_RESULTS: nat := 500

  /** A row of the relations table; without a target it is unresolved and only has the target's name. */
  datatype Relation = Relation(source: Id, target: Option<Id>, targetName: string)

  /** The names of the symbols, the relations by row, and whether unresolved ones are to be left out. */
  datatype Table = Table(names: map<Id, string>, rows: map<Id, Relation>, resolvedOnly: bool) {
    function Resolved(u: Id): set<Id> {
      set r | r in rows && rows[r].target == Some(u)
    }

    function Named(u: Id): set<Id> {
      if resolvedOnly || u !in names then {}
          else set r | r in rows && rows[r].target.None? && rows[r].targetName == names[u]
    }

    /** From a symbol to those that depend on it. */
    ghost function Dependents(): Edges<Id> {
      set r | r in rows && rows[r].target.Some? :: (rows[r].target.value, rows[r].source)
    }
  }

  /**
    What is listed for a symbol: the relations resolved to it and, unless resolved ones only are wanted, the unresolved
    ones that have its name.
   */
  lemma ListedAre(t: Table, u: Id, r: Id)
    ensures r in t.Resolved(u) <==> r in t.rows && t.rows[r].target == Some(u)
    ensures t.resolvedOnly ==> t.Named(u) == {}
    ensures !t.resolvedOnly ==>
      (r in t.Named(u)
       <==> r in t.rows && t.rows[r].target == None && u in t.names && t.names[u] == t.rows[r].targetName)
    ensures (u, r) in t.Dependents()
       <==> exists k :: k in t.rows && t.rows[k].target == Some(u) && t.rows[k].source == r
  {
  }

  /** A listed relation: the symbol it was found at, its row, and the depth. */
  datatype Found = Found(node: Id, row: Id, depth: int)

  ghost predicate Right(t: Table, start: Id, f: Found) {
    f.depth >= 1 && AtDistance(t.Dependents(), {start}, f.node, f.depth - 1)
        && f.row in t.Resolved(f.node) + t.Named(f.node)
  }

  /** Everything listed is a relation of a symbol at the depth it says, and nothing is listed twice. */
  ghost predicate Sound(t: Table, start: Id, found: seq<Found>) {
    && (forall f :: f in found ==> Right(t, start, f))
    && forall i, j :: 0 <= i < j < |found| ==> (found[i].node, found[i].row) != (found[j].node, found[j].row)
  }

  ghost predicate Lists(found: seq<Found>, u: Id, row: Id) {
    exists f :: f in found && f.node == u && f.row == row
  }

  /** The list holds all rows of the symbols in P, and no others. */
  ghost predicate ListsAll(t: Table, found: seq<Found>, P: set<Id>) {
    && (forall u, r :: u in P && r in t.Resolved(u) + t.Named(u) ==> Lists(found, u, r))
    && forall f :: f in found ==> f.node in P
  }

  // ----- one symbol

  /** The rows of u in `done` have been added to the list. */
  ghost predicate Adding(t: Table, start: Id, found0: seq<Found>, found: seq<Found>, u: Id, done: set<Id>) {
    && found0 <= found && Sound(t, start, found)
    && (forall i :: |found0| <= i < |found| ==> found[i].node == u && found[i].row in done)
    && (forall r :: r in done ==> Lists(found, u, r))
  }

  lemma AddOne(t: Table, start: Id, found0: seq<Found>, found: seq<Found>, u: Id, done: set<Id>, r: Id, d: int)
    requires Adding(t, start, found0, found, u, done) && r !in done && forall f :: f in found0 ==> f.node != u
    requires Right(t, start, Found(u, r, d))
    ensures Adding(t, start, found0, found + [Found(u, r, d)], u, done + {r})
  {
    var found' := found + [Found(u, r, d)];
    forall i | 0 <= i < |found| ensures (found[i].node, found[i].row) != (u, r) {
      assert i < |found0| ==> found[i] in found0;
    }
    forall q | q in done + {r} ensures Lists(found', u, q) {
      if q in done {
        var f :| f in found && f.node == u && f.row == q;
        assert f in found';
      } else {
        assert found'[|found|] in found';
      }
    }
  }

  /** u is where it should be, and none of its rows has been listed. */
  ghost predicate NewSymbol(t: Table, start: Id, found: seq<Found>, u: Id, d: int) {
    d >= 1 && AtDistance(t.Dependents(), {start}, u, d - 1) && forall f :: f in found ==> f.node != u
  }

  /** The resolved relations of a symbol; their sources are queued unless they have been visited. */
  method ListResolved(t: Table, start: Id, u: Id, d: nat, found0: seq<Found>, visited0: set<Id>)
    returns (found: seq<Found>, visited: set<Id>, extra: Queue, capped: bool)
    requires Sound(t, start, found0) && |found0| <= AFFECTED_MAX_RESULTS
    requires |found0| < AFFECTED_MAX_RESULTS ==> NewSymbol(t, start, found0, u, d)
    ensures Sound(t, start, found) && found0 <= found && |found| <= AFFECTED_MAX_RESULTS
    ensures |found0| == AFFECTED_MAX_RESULTS ==> found == found0 && extra == []
    ensures !capped ==> Adding(t, start, found0, found, u, t.Resolved(u))
    ensures !capped ==> visited == visited0 + Successors(t.Dependents(), {u})
    ensures !capped ==> DistinctNodes(extra) && Nodes(extra) == visited - visited0
    ensures !capped ==> forall i :: 0 <= i < |extra| ==> extra[i].depth == d + 1
    ensures capped ==> |found| == AFFECTED_MAX_RESULTS
  {
    found, visited, extra, capped := found0, visited0, [], false;
    var todo := t.Resolved(u);
    ghost var done: set<Id> := {};
    assert Nodes(extra) == {};
    while todo != {} && !capped
      invariant done + todo == t.Resolved(u) && done !! todo && |found| <= AFFECTED_MAX_RESULTS
      invariant Adding(t, start, found0, found, u, done)
      invariant visited == visited0 + Sources(t, done)
      invariant DistinctNodes(extra) && Nodes(extra) == visited - visited0
      invariant forall i :: 0 <= i < |extra| ==> extra[i].depth == d + 1
      invariant capped ==> |found| == AFFECTED_MAX_RESULTS
      invariant |found0| == AFFECTED_MAX_RESULTS ==> found == found0 && extra == []
      decreases todo, !capped
    {
      if |found| >= AFFECTED_MAX_RESULTS {
        capped := true;
      } else {
        var r :| r in todo;
        AddOne(t, start, found0, found, u, done, r, d);
        found := found + [Found(u, r, d)];
        extra, visited := Visit(t.rows[r].source, d + 1, visited, extra, visited0);
        todo, done := todo - {r}, done + {r};
      }
    }
    SourcesAreSuccessors(t, u);
  }

  method Visit(v: Id, d: nat, visited: set<Id>, extra: Queue, ghost visited0: set<Id>)
      returns (extra': Queue, visited': set<Id>)
    requires visited0 <= visited && DistinctNodes(extra) && Nodes(extra) == visited - visited0
    ensures visited' == visited + {v} && DistinctNodes(extra') && Nodes(extra') == visited' - visited0
    ensures extra <= extra' && forall i :: |extra| <= i < |extra'| ==> extra'[i].depth == d
  {
    extra', visited' := extra, visited;
    if v !in visited {
      AppendNode(extra, v, d);
      visited' := visited + {v};
      extra' := extra + [Waiting(v, d)];
    }
  }

  ghost function Sources(t: Table, rows: set<Id>): set<Id> {
    set r | r in rows && r in t.rows :: t.rows[r].source
  }

  lemma SourcesAreSuccessors(t: Table, u: Id)
    ensures Sources(t, t.Resolved(u)) == Successors(t.Dependents(), {u})
  {
    forall v | v in Sources(t, t.Resolved(u)) ensures v in Successors(t.Dependents(), {u}) {
      assert (u, v) in t.Dependents();
    }
  }

  /** The unresolved relations that name the symbol. */
  method ListNamed(t: Table, start: Id, u: Id, d: int, ghost found0: seq<Found>, found1: seq<Found>)
      returns (found: seq<Found>, capped: bool)
    requires Adding(t, start, found0, found1, u, t.Resolved(u)) && |found1| <= AFFECTED_MAX_RESULTS
    requires |found1| < AFFECTED_MAX_RESULTS ==> NewSymbol(t, start, found0, u, d)
    ensures Sound(t, start, found) && found0 <= found && |found| <= AFFECTED_MAX_RESULTS
    ensures !capped ==> Adding(t, start, found0, found, u, t.Resolved(u) + t.Named(u))
    ensures capped ==> |found| == AFFECTED_MAX_RESULTS
  {
    found, capped := found1, false;
    var todo := t.Named(u);
    ghost var done := t.Resolved(u);
    while todo != {} && !capped
      invariant done + todo == t.Resolved(u) + t.Named(u) && done !! todo && |found| <= AFFECTED_MAX_RESULTS
      invariant Adding(t, start, found0, found, u, done) && found1 <= found
      invariant capped ==> |found| == AFFECTED_MAX_RESULTS
      decreases todo, !capped
    {
      if |found| >= AFFECTED_MAX_RESULTS {
        capped := true;
      } else {
        var r :| r in todo;
        AddOne(t, start, found0, found, u, done, r, d);
        found := found + [Found(u, r, d)];
        todo, done := todo - {r}, done + {r};
      }
    }
  }

  // ----- the traversal

  /**
    Where the traversal stands before any cap: the queue is qa + qb, the symbols in P have been listed,
    qa completes layer d and qb is what layer d + 1 consists of so far.
   */
  ghost predicate Traversing(t: Table, start: Id, depth: int, found: seq<Found>, visited: set<Id>,
                             queue: Queue, qa: Queue, qb: Queue, d: nat, P: set<Id>) {
    && queue == qa + qb && DistinctNodes(qa) && DistinctNodes(qb)
    && (forall i :: 0 <= i < |qa| ==> qa[i].depth == d + 1)
    && (forall i :: 0 <= i < |qb| ==> qb[i].depth == d + 2)
    && Layered(t.Dependents(), {start}, d, P, Nodes(qa), Nodes(qb))
    && visited == P + Nodes(qa) + Nodes(qb)
    && ListsAll(t, found, P)
    && (qb != [] ==> d < depth) && (d > 0 ==> d <= depth)
    && (P != {} ==> depth > 0 && P <= Ball(t.Dependents(), {start}, depth - 1))
  }

  ghost predicate SomeAt(t: Table, start: Id, n: nat) {
    exists u :: AtDistance(t.Dependents(), {start}, u, n)
  }

  /** The depth was reached: a symbol waits at it, and exactly the nearer ones have been listed. */
  ghost predicate DepthReached(t: Table, start: Id, depth: int, found: seq<Found>) {
    && SomeAt(t, start, if depth < 0 then 0 else depth)
    && ListsAll(t, found, Within(t, start, depth))
  }

  /** The symbols fewer than `depth` steps away. */
  ghost function Within(t: Table, start: Id, depth: int): set<Id> {
    if depth <= 0 then {} else Ball(t.Dependents(), {start}, depth - 1)
  }

  /** Nothing is left out: every symbol that depends on the start, at whatever distance, has been listed. */
  ghost predicate NothingLeft(t: Table, start: Id, depth: int, found: seq<Found>) {
    && ListsAll(t, found, Within(t, start, depth))
    && forall n: nat :: Ball(t.Dependents(), {start}, n) <= Within(t, start, depth)
  }

  lemma NextFront(t: Table, start: Id, depth: int, found: seq<Found>, visited: set<Id>, queue: Queue, qa: Queue,
                  qb: Queue, d: nat, P: set<Id>) returns (qa': Queue, qb': Queue, d': nat)
    requires Traversing(t, start, depth, found, visited, queue, qa, qb, d, P) && queue != []
    ensures Traversing(t, start, depth, found, visited, queue, qa', qb', d', P)
    ensures qa' != [] && queue[0] == qa'[0] && queue[0].depth == d' + 1
    ensures AtDistance(t.Dependents(), {start}, queue[0].node, d') && queue[0].node !in P
  {
    qa', qb', d' := qa, qb, d;
    if qa == [] {
      assert Nodes([]) == {};
      LayerAdvance(t.Dependents(), {start}, d, P, Nodes(qb));
      qa', qb', d' := qb, [], d + 1;
    }
    LayerDistances(t.Dependents(), {start}, d', P, Nodes(qa'), Nodes(qb'));
    PopNode(qa');
  }

  lemma AtTheDepth(t: Table, start: Id, depth: int, found: seq<Found>, visited: set<Id>, queue: Queue, qa: Queue,
                   qb: Queue, d: nat, P: set<Id>)
    requires Traversing(t, start, depth, found, visited, queue, qa, qb, d, P) && qa != [] && d + 1 > depth
    requires AtDistance(t.Dependents(), {start}, qa[0].node, d)
    ensures DepthReached(t, start, depth, found)
    ensures forall i :: 0 <= i < |queue| ==> queue[i].depth > depth
  {
    assert SomeAt(t, start, d);
    if d == 0 {
      assert P == {} by {
        assert qa[0].node in Nodes(qa);
      }
    }
  }

  lemma Expanded(t: Table, start: Id, depth: int, found0: seq<Found>, visited0: set<Id>, queue: Queue, qa: Queue,
                 qb: Queue, d: nat, P: set<Id>, found: seq<Found>, visited: set<Id>, extra: Queue)
    requires Traversing(t, start, depth, found0, visited0, queue, qa, qb, d, P) && qa != [] && d + 1 <= depth
    requires Adding(t, start, found0, found, qa[0].node, t.Resolved(qa[0].node) + t.Named(qa[0].node))
    requires visited == visited0 + Successors(t.Dependents(), {qa[0].node})
    requires DistinctNodes(extra) && Nodes(extra) == visited - visited0
    requires forall i :: 0 <= i < |extra| ==> extra[i].depth == d + 2
    ensures Traversing(t, start, depth, found, visited, queue[1..] + extra, qa[1..], qb + extra, d, P + {qa[0].node})
  {
    var u, E := qa[0].node, t.Dependents();
    QueueSplit(queue, qa, qb, extra);
    PopNode(qa);
    DistinctAppend(qb, extra);
    SplitNodes(qb, extra);
    LayerExpand(E, {start}, d, P, Nodes(qa), Nodes(qb), u);
    BallMonotone(E, {start}, d, depth - 1);
    OneMoreListed(t, start, found0, found, P, u);
  }

  lemma QueueSplit(queue: Queue, qa: Queue, qb: Queue, extra: Queue)
    requires queue == qa + qb && qa != []
    ensures queue[1..] + extra == qa[1..] + (qb + extra)
  {
  }

  lemma OneMoreListed(t: Table, start: Id, found0: seq<Found>, found: seq<Found>, P: set<Id>, u: Id)
    requires ListsAll(t, found0, P) && Adding(t, start, found0, found, u, t.Resolved(u) + t.Named(u))
    ensures ListsAll(t, found, P + {u})
  {
    forall v, r | v in P + {u} && r in t.Resolved(v) + t.Named(v) ensures Lists(found, v, r) {
      if v in P {
        var f :| f in found0 && f.node == v && f.row == r;
        assert f in found;
      }
    }
    forall f | f in found ensures f.node in P + {u} {
      var i :| 0 <= i < |found| && found[i] == f;
      assert i < |found0| ==> found0[i] == f && f in found0;
    }
  }

  lemma RunsDry(t: Table, start: Id, depth: int, found: seq<Found>, visited: set<Id>, d: nat, P: set<Id>)
    requires Traversing(t, start, depth, found, visited, [], [], [], d, P)
    ensures NothingLeft(t, start, depth, found)
  {
    var E := t.Dependents();
    assert Nodes([]) == {};
    forall n: nat ensures Ball(E, {start}, n) <= P {
      LayersDone(E, {start}, d, P, n);
    }
    assert start in Ball(E, {start}, 0);
    assert P == Within(t, start, depth);
  }

  lemma Started(t: Table, start: Id, depth: int)
    ensures Traversing(t, start, depth, [], {start}, [Waiting(start, 1)], [Waiting(start, 1)], [], 0, {})
  {
    assert Nodes([Waiting(start, 1)]) == {start} && Nodes([]) == {};
  }

  ghost function Everything(t: Table, start: Id): set<Id> {
    {start} + (set r | r in t.rows :: t.rows[r].source)
  }

  /**
    What is true of the traversal at any time: it is where Traversing says, or the depth or the cap has been reached.
   */
  ghost predicate Standing(t: Table, start: Id, depth: int, found: seq<Found>, visited: set<Id>, truncated: bool,
                           capped: bool, queue: Queue, qa: Queue, qb: Queue, d: nat, P: set<Id>) {
    && Sound(t, start, found) && |found| <= AFFECTED_MAX_RESULTS
    && (!truncated ==> Traversing(t, start, depth, found, visited, queue, qa, qb, d, P) && P <= Everything(t, start))
    && (truncated && !capped ==>
       DepthReached(t, start, depth, found) && forall i :: 0 <= i < |queue| ==> queue[i].depth > depth)
    && (capped ==> truncated && |found| == AFFECTED_MAX_RESULTS)
  }

  method ExpandSymbol(t: Table, start: Id, u: Id, d: nat, found0: seq<Found>, visited0: set<Id>)
    returns (found: seq<Found>, visited: set<Id>, extra: Queue, capped: bool)
    requires Sound(t, start, found0) && |found0| <= AFFECTED_MAX_RESULTS
    requires |found0| < AFFECTED_MAX_RESULTS ==> NewSymbol(t, start, found0, u, d)
    ensures Sound(t, start, found) && |found| <= AFFECTED_MAX_RESULTS
    ensures |found0| == AFFECTED_MAX_RESULTS ==> |found| == AFFECTED_MAX_RESULTS && extra == []
    ensures !capped ==> Adding(t, start, found0, found, u, t.Resolved(u) + t.Named(u))
    ensures !capped ==> visited == visited0 + Successors(t.Dependents(), {u})
    ensures !capped ==> DistinctNodes(extra) && Nodes(extra) == visited - visited0
    ensures !capped ==> forall i :: 0 <= i < |extra| ==> extra[i].depth == d + 1
    ensures capped ==> |found| == AFFECTED_MAX_RESULTS
  {
    found, visited, extra, capped := ListResolved(t, start, u, d, found0, visited0);
    if !capped {
      found, capped := ListNamed(t, start, u, d, found0, found);
    }
  }

  /** A symbol listed in full while nothing has been cut off. */
  lemma StillTraversing(t: Table, start: Id, depth: int, found0: seq<Found>, visited0: set<Id>, queue: Queue, qa: Queue,
                        qb: Queue, d: nat, P: set<Id>, found: seq<Found>, visited: set<Id>, extra: Queue)
    requires Standing(t, start, depth, found0, visited0, false, false, queue, qa, qb, d, P) && qa != []
        && d + 1 <= depth
    requires AtDistance(t.Dependents(), {start}, qa[0].node, d) && |found| <= AFFECTED_MAX_RESULTS
    requires Adding(t, start, found0, found, qa[0].node, t.Resolved(qa[0].node) + t.Named(qa[0].node))
    requires visited == visited0 + Successors(t.Dependents(), {qa[0].node})
    requires DistinctNodes(extra) && Nodes(extra) == visited - visited0
    requires forall i :: 0 <= i < |extra| ==> extra[i].depth == d + 2
    ensures Standing(t, start, depth, found, visited, false, false, queue[1..] + extra, qa[1..], qb + extra, d,
                     P + {qa[0].node})
  {
    Expanded(t, start, depth, found0, visited0, queue, qa, qb, d, P, found, visited, extra);
    InEverything(t, start, qa[0].node, d);
  }

  /** One symbol from the front of the queue, while nothing has been cut off. */
  method StepBefore(t: Table, start: Id, depth: int, found0: seq<Found>, visited0: set<Id>, queue0: Queue,
                    ghost qa0: Queue, ghost qb0: Queue, ghost d0: nat, ghost P0: set<Id>)
    returns (found: seq<Found>, visited: set<Id>, truncated: bool, ghost capped: bool, queue: Queue,
             ghost qa: Queue, ghost qb: Queue, ghost d: nat, ghost P: set<Id>)
    requires Standing(t, start, depth, found0, visited0, false, false, queue0, qa0, qb0, d0, P0) && queue0 != []
    requires queue0[0].depth <= depth
    ensures Standing(t, start, depth, found, visited, truncated, capped, queue, qa, qb, d, P)
    ensures truncated <==> capped
    ensures !truncated ==> P0 < P
  {
    qa, qb, d := NextFront(t, start, depth, found0, visited0, queue0, qa0, qb0, d0, P0);
    P := P0;
    var current := queue0[0];
    var extra, full;
    found, visited, extra, full := ExpandSymbol(t, start, current.node, current.depth, found0, visited0);
    queue := queue0[1..] + extra;
    truncated, capped := full, full;
    if !full {
      StillTraversing(t, start, depth, found0, visited0, queue0, qa, qb, d, P, found, visited, extra);
      qa, qb, P := qa[1..], qb + extra, P + {current.node};
    }
  }

  /** The same when the list is full: nothing is added. */
  method StepAfter(t: Table, start: Id, depth: int, found0: seq<Found>, visited0: set<Id>, queue0: Queue,
                   ghost qa: Queue, ghost qb: Queue, ghost d: nat, ghost P: set<Id>)
    returns (found: seq<Found>, visited: set<Id>, queue: Queue)
    requires Standing(t, start, depth, found0, visited0, true, true, queue0, qa, qb, d, P) && queue0 != []
    ensures Standing(t, start, depth, found, visited, true, true, queue, qa, qb, d, P) && |queue| < |queue0|
  {
    var current := queue0[0];
    var extra, full;
    found, visited, extra, full := ExpandSymbol(t, start, current.node, current.depth, found0, visited0);
    queue := queue0[1..] + extra;
  }

  lemma DropDeep(t: Table, start: Id, depth: int, found: seq<Found>, visited: set<Id>, truncated: bool, capped: bool,
                 queue: Queue, qa: Queue, qb: Queue, d: nat, P: set<Id>)
    requires Standing(t, start, depth, found, visited, truncated, capped, queue, qa, qb, d, P) && queue != []
        && queue[0].depth > depth
    ensures Standing(t, start, depth, found, visited, true, capped, queue[1..], qa, qb, d, P)
  {
    if !truncated {
      var qa', qb', d' := NextFront(t, start, depth, found, visited, queue, qa, qb, d, P);
      AtTheDepth(t, start, depth, found, visited, queue, qa', qb', d', P);
    }
  }

  lemma InEverything(t: Table, start: Id, u: Id, n: nat)
    requires u in Ball(t.Dependents(), {start}, n)
    ensures u in Everything(t, start)
    decreases n
  {
    if n > 0 && u !in Ball(t.Dependents(), {start}, n - 1) {
      var e :| e in t.Dependents() && e.1 == u;
    } else if n > 0 {
      InEverything(t, start, u, n - 1);
    }
  }

  method ListAffected(t: Table, start: Id, depthArg: int) returns (found: seq<Found>, truncated: bool, depth: int)
    ensures depth == if depthArg < 8 then depthArg else 8
    ensures Sound(t, start, found) && |found| <= 500
    ensures !truncated ==> NothingLeft(t, start, depth, found)
    ensures truncated ==> |found| == 500 || DepthReached(t, start, depth, found)
  {
    depth := if depthArg < AFFECTED_MAX_DEPTH then depthArg else AFFECTED_MAX_DEPTH;
    found, truncated := [], false;
    var visited, queue: Queue := {start}, [Waiting(start, 1)];
    ghost var capped, qa: Queue, qb: Queue, d: nat, P: set<Id> := false, queue, [], 0, {};
    Started(t, start, depth);
    while queue != []
      invariant Standing(t, start, depth, found, visited, truncated, capped, queue, qa, qb, d, P)
      decreases !truncated, Everything(t, start) - P, |queue|
    {
      if queue[0].depth > depth {
        DropDeep(t, start, depth, found, visited, truncated, capped, queue, qa, qb, d, P);
        truncated, queue := true, queue[1..];
      } else if !truncated {
        found, visited, truncated, capped, queue, qa, qb, d, P :=
          StepBefore(t, start, depth, found, visited, queue, qa, qb, d, P);
      } else {
        found, visited, queue := StepAfter(t, start, depth, found, visited, queue, qa, qb, d, P);
      }
    }
    if !truncated {
      RunsDry(t, start, depth, found, visited, d, P);
    }
  }

  // ----- what the truncation signal is worth

  /** Some relation of a symbol that depends on the start, at whatever distance, is not in the list. */
  ghost predicate Missing(t: Table, start: Id, found: seq<Found>) {
    exists u, r, n: nat :: Overlooked(t, start, found, u, r, n)
  }

  ghost predicate Overlooked(t: Table, start: Id, found: seq<Found>, u: Id, r: Id, n: nat) {
    u in Ball(t.Dependents(), {start}, n) && r in t.Resolved(u) + t.Named(u) && !Lists(found, u, r)
  }

  /** A symbol exactly at the depth has relations of its own. */
  ghost predicate MoreAt(t: Table, start: Id, depth: nat) {
    exists u :: AtDistance(t.Dependents(), {start}, u, depth) && t.Resolved(u) + t.Named(u) != {}
  }

  /**
    Below the cap the signal says that some symbol stands exactly at the depth, while something is missing
    only if such a symbol has relations of its own: at a leaf the signal is a false alarm.
   */
  lemma AlarmExact(t: Table, start: Id, depth: nat, found: seq<Found>, truncated: bool)
    requires !truncated ==> NothingLeft(t, start, depth, found)
    requires truncated ==> DepthReached(t, start, depth, found)
    ensures truncated <==> SomeAt(t, start, depth)
    ensures Missing(t, start, found) <==> MoreAt(t, start, depth)
  {
    var E := t.Dependents();
    if SomeAt(t, start, depth) {
      var u :| AtDistance(E, {start}, u, depth);
      assert u !in Within(t, start, depth);
    }
    if MoreAt(t, start, depth) {
      var u :| AtDistance(E, {start}, u, depth) && t.Resolved(u) + t.Named(u) != {};
      var r :| r in t.Resolved(u) + t.Named(u);
      assert Overlooked(t, start, found, u, r, depth);
    } else {
      forall u, r, n: nat ensures !Overlooked(t, start, found, u, r, n) {
        if u in Ball(E, {start}, n) && r in t.Resolved(u) + t.Named(u) {
          LeavesEndIt(t, start, depth, u, n);
        }
      }
    }
  }

  /** One symbol uses another and nothing uses it: at depth 1 truncation is reported, and nothing is missing. */
  lemma LeafAlarm(a: Id, b: Id, row: Id, resolvedOnly: bool) returns (t: Table)
    requires a != b
    ensures t == Table(map[a := "callee", b := "caller"], map[row := Relation(b, Some(a), "callee")], resolvedOnly)
    ensures DepthReached(t, a, 1, [Found(a, row, 1)]) && !Missing(t, a, [Found(a, row, 1)])
    ensures Sound(t, a, [Found(a, row, 1)]) && !NothingLeft(t, a, 1, [Found(a, row, 1)])
  {
    t := Table(map[a := "callee", b := "caller"], map[row := Relation(b, Some(a), "callee")], resolvedOnly);
    var E, found := t.Dependents(), [Found(a, row, 1)];
    assert t.rows[row].target == Some(a) && t.rows[row].source == b;
    assert E == {(a, b)};
    assert Ball(E, {a}, 0) == {a} && Successors(E, {a}) == {b};
    assert Ball(E, {a}, 1) == {a, b};
    assert AtDistance(E, {a}, b, 1) && AtDistance(E, {a}, a, 0);
    assert t.Resolved(a) == {row} && t.Resolved(b) == {} && t.Named(a) == {} && t.Named(b) == {};
    assert found[0] in found && Lists(found, a, row);
    forall u ensures !(AtDistance(E, {a}, u, 1) && t.Resolved(u) + t.Named(u) != {}) {
    }
    AlarmExact(t, a, 1, found, true);
  }

  /** If no symbol at the depth has relations, one that has lies nearer. */
  lemma LeavesEndIt(t: Table, start: Id, depth: nat, u: Id, n: nat)
    requires !MoreAt(t, start, depth) && u in Ball(t.Dependents(), {start}, n) && t.Resolved(u) + t.Named(u) != {}
    ensures u in Within(t, start, depth)
  {
    var E := t.Dependents();
    forall v | v in Successors(E, Ball(E, {start}, depth)) ensures v in Ball(E, {start}, depth) {
      var e :| e in E && e.0 in Ball(E, {start}, depth) && e.1 == v;
      var r :| r in t.rows && t.rows[r].target.Some? && (t.rows[r].target.value, t.rows[r].source) == e;
      assert r in t.Resolved(e.0);
      assert !AtDistance(E, {start}, e.0, depth);
    }
    if n <= depth {
      BallMonotone(E, {start}, n, depth);
    } else {
      ClosedBall(E, {start}, depth, n);
    }
    assert !AtDistance(E, {start}, u, depth);
  }
}
