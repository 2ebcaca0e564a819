/** The queries of the graph-proximity channel, and the order of what it returns, row by row. */
module HopQueries {
  import opened GraphProximity
  import opened Graphs
  import opened Ids
  import opened Wrappers

  /** The column holds the entity itself, or the one it has been merged into. */
  ghost predicate Names(db: Store, column: Id, e: Id) {
    e in db.entities && (column == e || db.entities[e] == Some(column))
  }

  /** A path: the memory mentions an entity, that is related to another, and that is mentioned by the other memory. */
  ghost predicate Bridge(db: Store, m: Uuid, other: Uuid, relationType: string, e: Id, r: Relation, column: Id) {
    && Mention(m, e) in db.mentions && e in db.entities
    && r in db.relations && r.relationType == relationType && Names(db, r.source, e)
    && Names(db, column, r.target) && Mention(other, column) in db.mentions
  }

  /** A relation hop leads along such a path to another memory, and carries the type of the relation. */
  lemma RelationHopIff(db: Store, m: Uuid, h: Hop)
    ensures h in db.Queries().hopsOf(RelationsTable, m)
       <==> && h.table == RelationsTable && h.memory != m
            && exists e, r, column :: Bridge(db, m, h.memory, h.relationType, e, r, column)
  {
    if h in db.EntityMediated(m) {
      var ms, r, mt :| && ms in db.mentions && ms.memory == m && ms.entity in db.entities
        && r in db.relations && db.Joins(r.source, ms.entity) && r.target in db.entities
        && mt in db.mentions && db.Joins(mt.entity, r.target) && mt.memory != m
        && h == Hop(RelationsTable, r.relationType, mt.memory);
      assert ms == Mention(m, ms.entity) && mt == Mention(h.memory, mt.entity);
      assert Bridge(db, m, h.memory, h.relationType, ms.entity, r, mt.entity);
    }
    if h.table == RelationsTable && h.memory != m
       && exists e, r, column :: Bridge(db, m, h.memory, h.relationType, e, r, column) {
      var e, r, column :| Bridge(db, m, h.memory, h.relationType, e, r, column);
      HopFound(db, m, h, Mention(m, e), r, Mention(h.memory, column));
    }
  }

  lemma HopFound(db: Store, m: Uuid, h: Hop, ms: Mention, r: Relation, mt: Mention)
    requires ms in db.mentions && ms.memory == m && r in db.relations && mt in db.mentions && mt.memory == h.memory != m
    requires Names(db, r.source, ms.entity) && Names(db, mt.entity, r.target) && h.relationType == r.relationType
    requires h.table == RelationsTable
    ensures h in db.EntityMediated(m)
  {
    assert db.Joins(r.source, ms.entity) && db.Joins(mt.entity, r.target);
    assert h == Hop(RelationsTable, r.relationType, mt.memory);
  }

  /** An edge hop follows a manual edge from its source to its target, and carries its relation. */
  lemma EdgeHopIff(db: Store, m: Uuid, h: Hop)
    ensures h in db.Queries().hopsOf(EdgesTable, m)
       <==> h.table == EdgesTable && MemoryEdge(m, h.memory, h.relationType) in db.edges
    ensures h !in db.Queries().hopsOf(SeedTable, m)
  {
    if h.table == EdgesTable && MemoryEdge(m, h.memory, h.relationType) in db.edges {
      var e := MemoryEdge(m, h.memory, h.relationType);
      assert Hop(EdgesTable, e.relation, e.target) in db.MemoryDirect(m);
    }
  }

  /** Found for a seed are the memories that mention it without its being merged, or one merged into it. */
  lemma SeedMentionedIff(db: Store, seed: Id, m: Uuid)
    ensures m in db.Queries().mentioning(seed)
       <==> exists e :: && Mention(m, e) in db.mentions && e in db.entities
                        && (db.entities[e] == Some(seed) || (db.entities[e] == None && e == seed))
  {
    if m in db.MemoriesMentioning(seed) {
      var x :| x in db.mentions && x.entity in db.entities && db.Canonical(x.entity) == seed && x.memory == m;
      assert x == Mention(m, x.entity);
    }
    if e :| Mention(m, e) in db.mentions && e in db.entities
            && (db.entities[e] == Some(seed) || (db.entities[e] == None && e == seed)) {
      assert Mention(m, e).memory in db.MemoriesMentioning(seed);
    }
  }

  /** Steps of the search: manual edges as they point, and bridges between different memories. */
  lemma StepIff(db: Store, a: Uuid, b: Uuid)
    ensures (a, b) in db.Queries().HopEdges()
       <==> || (exists relation :: MemoryEdge(a, b, relation) in db.edges)
            || (a != b && exists t, e, r, column :: Bridge(db, a, b, t, e, r, column))
  {
    var c := db.Queries();
    forall h: Hop, t {:trigger h in c.hopsOf(t, a)} | t == RelationsTable || t == EdgesTable
      ensures h in c.hopsOf(t, a) <==>
          if t == EdgesTable then h.table == t && MemoryEdge(a, h.memory, h.relationType) in db.edges
          else h.table == t && h.memory != a
               && exists e, r, column :: Bridge(db, a, h.memory, h.relationType, e, r, column)
    {
      EdgeHopIff(db, a, h);
      RelationHopIff(db, a, h);
    }
    if relation :| MemoryEdge(a, b, relation) in db.edges {
      assert Hop(EdgesTable, relation, b) in c.hopsOf(EdgesTable, a);
      HopEdge(c, a, EdgesTable, Hop(EdgesTable, relation, b));
    }
    if a != b && exists t, e, r, column :: Bridge(db, a, b, t, e, r, column) {
      var t, e, r, column :| Bridge(db, a, b, t, e, r, column);
      assert Hop(RelationsTable, t, b) in c.hopsOf(RelationsTable, a);
      HopEdge(c, a, RelationsTable, Hop(RelationsTable, t, b));
    }
  }

  /** The list returned: smaller ranks first, then smaller memory ids, and nothing left out sorts before it. */
  lemma TopIsSorted(T: set<Item>, limit: nat, r: seq<Item>, x: Item, i: nat, j: nat)
    requires IsTop(T, limit, r)
    ensures |r| == (if limit < |T| then limit else |T|)
    ensures i < j < |r| ==>
      r[i].rank < r[j].rank || (r[i].rank == r[j].rank && r[i].memory.number < r[j].memory.number)
    ensures x in T && x !in r && i < |r| ==>
      r[i].rank < x.rank || (r[i].rank == x.rank && r[i].memory.number < x.memory.number)
  {
    assert i < j < |r| ==> Before(r[i], r[j]);
  }

  /** In the ranking a seed has rank 1, and any other memory the least rank of the hops that reach it in time. */
  lemma RankIsLeast(c: Channel, curve: Curve, seeds: set<Id>, alive: set<Uuid>, cap: nat, T: set<Item>, x: Item)
    requires IsRanking(c, curve, seeds, alive, cap, T) && x in T
    ensures x.distance == 0 ==> x.rank == 1.0
    ensures x.distance > 0 ==>
      forall u, t, h :: LeadsTo(c, seeds, u, t, h, x) ==> x.rank <= HopRank(curve, x.distance, h.table, h.relationType)
    ensures x.distance > 0 ==>
      exists u, t, h :: LeadsTo(c, seeds, u, t, h, x)
                        && x.rank == HopRank(curve, x.distance, h.table, h.relationType)
  {
    var S := SeedMemories(c, seeds);
    if x.distance > 0 {
      forall u, t, h | LeadsTo(c, seeds, u, t, h, x)
        ensures x.rank <= HopRank(curve, x.distance, h.table, h.relationType)
      {
        assert Arrival(c, S, x.distance, h) && h in Arrivals(c, S, x.distance);
      }
      var h :| h in Arrivals(c, S, x.distance) && h.memory == x.memory && RankOfHop(curve, x.distance, h) == x.rank;
      var u, t :| AtDistance(c.HopEdges(), S, u, x.distance - 1) && h in c.hopsOf(t, u);
      assert LeadsTo(c, seeds, u, t, h, x);
    }
  }

  /** The hop leads from a memory that is one step nearer. */
  ghost predicate LeadsTo(c: Channel, seeds: set<Id>, u: Uuid, t: Table, h: Hop, x: Item) {
    && x.distance > 0 && h in c.hopsOf(t, u) && h.memory == x.memory
    && u in Ball(c.HopEdges(), SeedMemories(c, seeds), x.distance - 1)
    && (x.distance > 1 ==> u !in Ball(c.HopEdges(), SeedMemories(c, seeds), x.distance - 2))
  }

  /** One manual edge is followed in its direction only. */
  lemma OneEdgeFollowed(a: Uuid, b: Uuid, relation: string)
    requires a != b
    ensures var c := Store({a, b}, map[], {}, {}, {MemoryEdge(a, b, relation)}).Queries();
      (a, b) in c.HopEdges() && (b, a) !in c.HopEdges()
  {
    var db := Store({a, b}, map[], {}, {}, {MemoryEdge(a, b, relation)});
    StepIff(db, a, b);
    StepIff(db, b, a);
    assert MemoryEdge(a, b, relation) in db.edges;
  }
}
