/**
  The cycle check of the ontology validator: an iterative depth-first search
  over a stack of partly consumed neighbour lists.
 */
module CycleCheck {
  import opened Graphs
  import opened Ids

  datatype Relation = Relation(fromId: Id, rel: string, toId: Id)

  datatype Cardinality = ManyToOne | OneToMany | ManyToMany

  datatype Spec = Spec(cardinality: Cardinality, acyclic: bool)

  const RELATION_SPEC: map<string, Spec> := map[
    "has_owner" := Spec(ManyToOne, false),
    "has_task" := Spec(OneToMany, false),
    "assigned_to" := Spec(ManyToOne, false),
    "blocks" := Spec(ManyToMany, true),
    "part_of" := Spec(ManyToOne, false),
    "depends_on" := Spec(ManyToMany, true),
    "member_of" := Spec(ManyToMany, false),
    "has_goal" := Spec(OneToMany, false),
    "mentions" := Spec(ManyToMany, false),
    "follows_up" := Spec(ManyToOne, false),
    "attendee_of" := Spec(ManyToMany, false)
  ]

  /** One reported error: the relation type and the path that closes on itself. */
  datatype CycleError = CycleError(relType: string, path: seq<Id>)

  /** The graph of one relation type. */
  ghost function EdgesOf(relations: seq<Relation>, relType: string): (E: Edges<Id>) {
    set r | r in relations && r.rel == relType :: (r.fromId, r.toId)
  }

  /** A cycle that visits no node twice, apart from closing on its first node. */
  ghost predicate SimpleCycle(E: Edges<Id>, p: seq<Id>) {
    && ClosedWalk(E, p)
    && forall i, j :: 0 <= i < j < |p| - 1 ==> p[i] != p[j]
  }

  // ----- the adjacency lists

  type Adjacency = map<Id, seq<Id>>

  function Neighbours(adj: Adjacency, u: Id): seq<Id> {
    if u in adj then adj[u] else []
  }

  ghost predicate Represents(adj: Adjacency, nodes: set<Id>, E: Edges<Id>) {
    && (forall u, v :: (u, v) in E <==> v in Neighbours(adj, u))
    && (forall e :: e in E ==> e.0 in nodes && e.1 in nodes)
  }

  method BuildAdjacency(relations: seq<Relation>, relType: string) returns (adj: Adjacency, nodes: set<Id>)
    ensures Represents(adj, nodes, EdgesOf(relations, relType))
    ensures forall n :: n in nodes ==> exists e :: e in EdgesOf(relations, relType) && (n == e.0 || n == e.1)
  {
    adj, nodes := map[], {};
    assert EdgesOf(relations[..0], relType) == {};
    for i := 0 to |relations|
      invariant Represents(adj, nodes, EdgesOf(relations[..i], relType))
      invariant forall n :: n in nodes ==> exists e :: e in EdgesOf(relations[..i], relType) && (n == e.0 || n == e.1)
    {
      var r := relations[i];
      ghost var before, after := EdgesOf(relations[..i], relType), EdgesOf(relations[..i + 1], relType);
      assert relations[..i + 1] == relations[..i] + [r];
      if r.rel == relType {
        assert after == before + {(r.fromId, r.toId)};
        adj := adj[r.fromId := Neighbours(adj, r.fromId) + [r.toId]];
        nodes := nodes + {r.fromId, r.toId};
      } else {
        assert after == before;
      }
    }
    assert relations[..|relations|] == relations;
  }

  // ----- the search

  /** A stack entry: a node and how many of its neighbours have been taken from its iterator. */
  datatype Frame = Frame(node: Id, taken: nat)

  ghost function NodesOn(stack: seq<Frame>): set<Id> {
    set k | 0 <= k < |stack| :: stack[k].node
  }

  function Path(stack: seq<Frame>): (p: seq<Id>)
    ensures |p| == |stack| && forall k :: 0 <= k < |p| ==> p[k] == stack[k].node
  {
    seq(|stack|, k requires 0 <= k < |stack| => stack[k].node)
  }

  method IndexOf(stack: seq<Frame>, n: Id) returns (idx: nat)
    requires n in NodesOn(stack)
    ensures idx < |stack| && stack[idx].node == n
    ensures forall k :: 0 <= k < idx ==> stack[k].node != n
  {
    ghost var w :| 0 <= w < |stack| && stack[w].node == n;
    idx := 0;
    while stack[idx].node != n
      invariant idx <= w && forall k :: 0 <= k < idx ==> stack[k].node != n
      decreases w - idx
    {
      idx := idx + 1;
    }
  }

  /** The first `n` neighbours of u have been finished. */
  ghost predicate Finished(adj: Adjacency, u: Id, n: int, order: seq<Id>) {
    n <= |Neighbours(adj, u)| && forall j :: 0 <= j < n ==> Neighbours(adj, u)[j] in order
  }

  /** Frame `lower` was left through the neighbour that frame `upper` searches. */
  ghost predicate LeftThrough(adj: Adjacency, lower: Frame, upper: Frame) {
    && 0 < lower.taken <= |Neighbours(adj, lower.node)|
    && Neighbours(adj, lower.node)[lower.taken - 1] == upper.node
  }

  /** Each frame but the top one was left through the neighbour just above it. */
  ghost predicate Linked(adj: Adjacency, stack: seq<Frame>) {
    forall k, m {:trigger stack[k], stack[m]} :: 0 <= k < |stack| && m == k + 1 < |stack|
        ==> LeftThrough(adj, stack[k], stack[m])
  }

  ghost predicate Distinct(stack: seq<Frame>) {
    forall i, j :: 0 <= i < j < |stack| ==> stack[i].node != stack[j].node
  }

  /** What every step of the search keeps: `order` is the list of finished nodes, in finishing order. */
  ghost predicate Searching(E: Edges<Id>, adj: Adjacency, nodes: set<Id>, stack: seq<Frame>,
                            visited: set<Id>, onStack: set<Id>, order: seq<Id>)
  {
    && Descending(E, order)
    && Distinct(stack) && Linked(adj, stack)
    && onStack == NodesOn(stack)
    && (forall n :: n in visited <==> n in onStack || n in order)
    && (forall n :: n in order ==> n !in onStack)
    && visited <= nodes
    && FramesFinished(adj, stack, order)
  }

  lemma StackClosesCycle(E: Edges<Id>, adj: Adjacency, nodes: set<Id>, stack: seq<Frame>, idx: nat, p: seq<Id>)
    requires Represents(adj, nodes, E)
    requires Distinct(stack) && Linked(adj, stack)
    requires idx < |stack|
    requires |p| == |stack| - idx + 1
    requires forall k :: 0 <= k < |stack| - idx ==> p[k] == stack[idx + k].node
    requires p[|p| - 1] == stack[idx].node
    requires stack[idx].node in Neighbours(adj, stack[|stack| - 1].node)
    ensures SimpleCycle(E, p)
  {
    forall i | 0 <= i < |p| - 1 ensures (p[i], p[i + 1]) in E {
      if i < |p| - 2 {
        assert LeftThrough(adj, stack[idx + i], stack[idx + i + 1]);
      }
    }
  }

  /** Taking one more neighbour from the top frame's iterator does not change which nodes are on the stack. */
  lemma TakeKeepsNodes(adj: Adjacency, stack: seq<Frame>, stack': seq<Frame>)
    requires stack != []
    requires stack' == stack[..|stack| - 1] + [Frame(stack[|stack| - 1].node, stack[|stack| - 1].taken + 1)]
    requires Distinct(stack) && Linked(adj, stack)
    ensures Distinct(stack') && Linked(adj, stack') && NodesOn(stack') == NodesOn(stack)
  {
    assert forall k :: 0 <= k < |stack| ==> stack'[k].node == stack[k].node;
    forall k | 0 <= k < |stack| ensures stack'[k].node in NodesOn(stack) && stack[k].node in NodesOn(stack') {
    }
  }

  /** Pushing a node that is not on the stack. */
  lemma PushAddsNode(stack: seq<Frame>, f: Frame)
    requires Distinct(stack) && f.node !in NodesOn(stack)
    ensures Distinct(stack + [f]) && NodesOn(stack + [f]) == NodesOn(stack) + {f.node}
  {
    var stack' := stack + [f];
    forall k | 0 <= k < |stack| ensures stack[k].node in NodesOn(stack') && stack[k].node in NodesOn(stack) {
      assert stack'[k] == stack[k];
    }
    assert stack'[|stack|].node == f.node;
  }

  /** Pushing an unvisited neighbour of the top frame. */
  lemma PushKeeps(E: Edges<Id>, adj: Adjacency, nodes: set<Id>, stack: seq<Frame>, taken: seq<Frame>, visited: set<Id>,
                  onStack: set<Id>, order: seq<Id>, nxt: Id)
    requires Represents(adj, nodes, E) && Searching(E, adj, nodes, stack, visited, onStack, order)
    requires stack != []
    requires var top := stack[|stack| - 1];
      && top.taken < |Neighbours(adj, top.node)| && nxt == Neighbours(adj, top.node)[top.taken]
      && taken == stack[..|stack| - 1] + [Frame(top.node, top.taken + 1)]
    requires nxt !in visited
    ensures Searching(E, adj, nodes, taken + [Frame(nxt, 0)], visited + {nxt}, onStack + {nxt}, order)
  {
    TakeKeepsNodes(adj, stack, taken);
    PushAddsNode(taken, Frame(nxt, 0));
    assert (stack[|stack| - 1].node, nxt) in E;
  }

  /** Skipping a neighbour that is visited but no longer on the stack. */
  lemma SkipKeeps(E: Edges<Id>, adj: Adjacency, nodes: set<Id>, stack: seq<Frame>, taken: seq<Frame>, visited: set<Id>,
                  onStack: set<Id>, order: seq<Id>, nxt: Id)
    requires Represents(adj, nodes, E) && Searching(E, adj, nodes, stack, visited, onStack, order)
    requires stack != []
    requires var top := stack[|stack| - 1];
      && top.taken < |Neighbours(adj, top.node)| && nxt == Neighbours(adj, top.node)[top.taken]
      && taken == stack[..|stack| - 1] + [Frame(top.node, top.taken + 1)]
    requires nxt in visited - onStack
    ensures Searching(E, adj, nodes, taken, visited, onStack, order)
  {
    TakeKeepsNodes(adj, stack, taken);
  }

  lemma PopRemovesNode(adj: Adjacency, stack: seq<Frame>)
    requires Distinct(stack) && Linked(adj, stack) && stack != []
    ensures Distinct(stack[..|stack| - 1]) && Linked(adj, stack[..|stack| - 1])
    ensures NodesOn(stack[..|stack| - 1]) == NodesOn(stack) - {stack[|stack| - 1].node}
    ensures stack[|stack| - 1].node in NodesOn(stack)
  {
    var rest := stack[..|stack| - 1];
    forall n | n in NodesOn(stack) && n != stack[|stack| - 1].node ensures n in NodesOn(rest) {
      var k :| 0 <= k < |stack| && stack[k].node == n;
      assert rest[k].node == n;
    }
  }

  /** A node whose neighbours have all been finished can be finished. */
  lemma FinishKeepsOrder(E: Edges<Id>, adj: Adjacency, nodes: set<Id>, order: seq<Id>, u: Id)
    requires Represents(adj, nodes, E) && Descending(E, order)
    requires u !in order && Finished(adj, u, |Neighbours(adj, u)|, order)
    ensures Descending(E, order + [u])
  {
    var order' := order + [u];
    forall e, i | e in E && 0 <= i < |order'|
      ensures LeadsBack(order', e, i)
    {
      assert (e.0, e.1) in E;
      if i < |order| {
        assert order'[..i] == order[..i] && LeadsBack(order, e, i);
      } else {
        assert order'[..i] == order;
        assert e.0 == u ==> e.1 in Neighbours(adj, u);
      }
    }
  }

  lemma FinishedStays(adj: Adjacency, v: Id, n: int, order: seq<Id>, u: Id)
    requires Finished(adj, v, n, order)
    ensures Finished(adj, v, n, order + [u])
    ensures 0 <= n < |Neighbours(adj, v)| && Neighbours(adj, v)[n] == u ==> Finished(adj, v, n + 1, order + [u])
  {
  }

  /** Every frame's taken neighbours are finished, except the one a lower frame was left through. */
  ghost predicate FramesFinished(adj: Adjacency, stack: seq<Frame>, order: seq<Id>) {
    && (forall k :: 0 <= k < |stack| - 1 ==> Finished(adj, stack[k].node, stack[k].taken - 1, order))
    && (stack != [] ==> Finished(adj, stack[|stack| - 1].node, stack[|stack| - 1].taken, order))
  }

  lemma PopFramesFinished(adj: Adjacency, stack: seq<Frame>, order: seq<Id>)
    requires stack != [] && Linked(adj, stack) && FramesFinished(adj, stack, order)
    ensures FramesFinished(adj, stack[..|stack| - 1], order + [stack[|stack| - 1].node])
  {
    var u, rest := stack[|stack| - 1].node, stack[..|stack| - 1];
    forall k | 0 <= k < |rest| - 1 ensures Finished(adj, rest[k].node, rest[k].taken - 1, order + [u]) {
      FinishedStays(adj, rest[k].node, rest[k].taken - 1, order, u);
    }
    if rest != [] {
      assert LeftThrough(adj, stack[|rest| - 1], stack[|rest|]);
      FinishedStays(adj, rest[|rest| - 1].node, rest[|rest| - 1].taken - 1, order, u);
    }
  }

  /** Popping a frame whose neighbours are used up: its node is finished. */
  lemma PopKeeps(E: Edges<Id>, adj: Adjacency, nodes: set<Id>, stack: seq<Frame>, visited: set<Id>,
                 onStack: set<Id>, order: seq<Id>)
    requires Represents(adj, nodes, E) && Searching(E, adj, nodes, stack, visited, onStack, order)
    requires stack != [] && stack[|stack| - 1].taken == |Neighbours(adj, stack[|stack| - 1].node)|
    ensures var u := stack[|stack| - 1].node;
      Searching(E, adj, nodes, stack[..|stack| - 1], visited, onStack - {u}, order + [u])
  {
    var u := stack[|stack| - 1].node;
    PopRemovesNode(adj, stack);
    FinishKeepsOrder(E, adj, nodes, order, u);
    PopFramesFinished(adj, stack, order);
    assert forall n :: n in order + [u] <==> n in order || n == u;
  }

  /** The stack from nxt upwards, closed by nxt: the reported path. */
  method ClosePath(stack: seq<Frame>, nxt: Id, adj: Adjacency, ghost E: Edges<Id>, ghost nodes: set<Id>)
      returns (cycle: seq<Id>)
    requires Represents(adj, nodes, E) && Distinct(stack) && Linked(adj, stack)
    requires stack != [] && nxt in NodesOn(stack) && nxt in Neighbours(adj, stack[|stack| - 1].node)
    ensures SimpleCycle(E, cycle)
  {
    var idx := IndexOf(stack, nxt);
    var path := Path(stack);
    cycle := path[idx..] + [nxt];
    StackClosesCycle(E, adj, nodes, stack, idx, cycle);
  }

  /** The depth-first search from one start node: it either closes a cycle or finishes every node it visits. */
  method SearchFrom(start: Id, adj: Adjacency, nodes: set<Id>, visited0: set<Id>, ghost E: Edges<Id>,
                    ghost order0: seq<Id>)
    returns (cycle: seq<Id>, visited: set<Id>, ghost order: seq<Id>)
    requires Represents(adj, nodes, E) && start in nodes && start !in visited0
    requires Searching(E, adj, nodes, [], visited0, {}, order0)
    ensures cycle != [] ==> SimpleCycle(E, cycle)
    ensures cycle == [] ==> Searching(E, adj, nodes, [], visited, {}, order)
    ensures visited0 + {start} <= visited
  {
    cycle := [];
    order := order0;
    var stack := [Frame(start, 0)];
    visited := visited0 + {start};
    var onStack := {start};
    while stack != []
      invariant Searching(E, adj, nodes, stack, visited, onStack, order)
      invariant visited0 + {start} <= visited
      decreases nodes - visited, |stack|, if stack == [] then 0
          else |Neighbours(adj, stack[|stack| - 1].node)| - stack[|stack| - 1].taken
    {
      var top := stack[|stack| - 1];
      if top.taken < |Neighbours(adj, top.node)| {
        var nxt := Neighbours(adj, top.node)[top.taken];
        ghost var before := stack;
        var taken := stack[..|stack| - 1] + [Frame(top.node, top.taken + 1)];
        assert (top.node, nxt) in E;
        if nxt in onStack {
          cycle := ClosePath(stack, nxt, adj, E, nodes);
          return;
        }
        if nxt !in visited {
          PushKeeps(E, adj, nodes, before, taken, visited, onStack, order, nxt);
          stack := taken + [Frame(nxt, 0)];
          visited := visited + {nxt};
          onStack := onStack + {nxt};
        } else {
          SkipKeeps(E, adj, nodes, before, taken, visited, onStack, order, nxt);
          stack := taken;
        }
      } else {
        PopKeeps(E, adj, nodes, stack, visited, onStack, order);
        stack := stack[..|stack| - 1];
        onStack := onStack - {top.node};
        order := order + [top.node];
      }
    }
  }

  /** The cycle check for one relation type: complete and, when it reports, backed by a simple cycle. */
  method FindCycle(relations: seq<Relation>, relType: string) returns (cycle: seq<Id>)
    ensures cycle != [] <==> HasCycle(EdgesOf(relations, relType))
    ensures cycle != [] ==> SimpleCycle(EdgesOf(relations, relType), cycle)
  {
    ghost var E := EdgesOf(relations, relType);
    var adj, nodes := BuildAdjacency(relations, relType);
    var visited, remaining := {}, nodes;
    ghost var order := [];
    cycle := [];
    while remaining != {}
      invariant remaining <= nodes && nodes <= remaining + visited
      invariant cycle == [] && Searching(E, adj, nodes, [], visited, {}, order)
      decreases remaining
    {
      var start :| start in remaining;
      remaining := remaining - {start};
      if start !in visited {
        cycle, visited, order := SearchFrom(start, adj, nodes, visited, E, order);
        if cycle != [] {
          assert ClosedWalk(E, cycle);
          return;
        }
      }
    }
    assert forall e :: e in E ==> e.0 in visited;
    DescendingAcyclic(E, order);
  }

  /**
    All acyclic relation types.  Set iteration has no fixed order, so neither has the error list;
    which types it names is determined, each at most once.
   */
  method CheckCycles(relations: seq<Relation>) returns (errors: seq<CycleError>)
    ensures forall e :: e in errors ==> SimpleCycle(EdgesOf(relations, e.relType), e.path)
    ensures forall t :: (exists e :: e in errors && e.relType == t)
                   <==> t in RELATION_SPEC && RELATION_SPEC[t].acyclic && HasCycle(EdgesOf(relations, t))
    ensures forall i, j :: 0 <= i < j < |errors| ==> errors[i].relType != errors[j].relType
  {
    errors := [];
    var todo := set t | t in RELATION_SPEC && RELATION_SPEC[t].acyclic;
    ghost var acyclic := todo;
    while todo != {}
      invariant todo <= acyclic
      invariant forall e ::
        e in errors ==> e.relType in acyclic - todo && SimpleCycle(EdgesOf(relations, e.relType), e.path)
      invariant forall t ::
        t in acyclic - todo && HasCycle(EdgesOf(relations, t)) ==> exists e :: e in errors && e.relType == t
      invariant forall i, j :: 0 <= i < j < |errors| ==> errors[i].relType != errors[j].relType
      decreases todo
    {
      var relType :| relType in todo;
      todo := todo - {relType};
      var cycle := FindCycle(relations, relType);
      if cycle != [] {
        ghost var before := errors;
        errors := errors + [CycleError(relType, cycle)];
        assert CycleError(relType, cycle) in errors;
        assert forall e :: e in before ==> e in errors;
      }
    }
    forall e | e in errors
      ensures e.relType in acyclic && HasCycle(EdgesOf(relations, e.relType))
    {
      assert ClosedWalk(EdgesOf(relations, e.relType), e.path);
    }
  }

  // ----- in terms of the relations

  /** Two relation types are acyclic. */
  lemma AcyclicTypes(t: string)
    ensures t in RELATION_SPEC && RELATION_SPEC[t].acyclic <==> t == "blocks" || t == "depends_on"
  {
  }

  /** A cycle is a path along relations of the type, from their source to their target, that closes on its start. */
  lemma CycleFollowsRelations(relations: seq<Relation>, relType: string, p: seq<Id>)
    ensures ClosedWalk(EdgesOf(relations, relType), p)
       <==> |p| >= 2 && p[0] == p[|p| - 1]
            && forall i :: 0 <= i < |p| - 1 ==> Relation(p[i], relType, p[i + 1]) in relations
  {
    forall u, v ensures (u, v) in EdgesOf(relations, relType) <==> Relation(u, relType, v) in relations {
      if (u, v) in EdgesOf(relations, relType) {
        var r :| r in relations && r.rel == relType && (u, v) == (r.fromId, r.toId);
        assert r == Relation(u, relType, v);
      }
      if Relation(u, relType, v) in relations {
        assert Relation(u, relType, v).rel == relType;
      }
    }
  }
}
