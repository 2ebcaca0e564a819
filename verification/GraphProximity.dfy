/**
  The graph-proximity channel: a levelled breadth-first search over memories joined by
  entity relations and by manual edges, which keeps the best rank per memory.
 */
module GraphProximity {
  import opened Wrappers
  import opened Ids
  import opened Graphs

  // ----- rank curves

  const EPS: real := 0.000001
  const MANUAL_EDGE_WEIGHT: real := 1.2
  const MANUAL_EDGE_BONUS: real := 1.5
  const AUTO_TYPE_BONUS_DEFAULT: real := 0.8

  const RELATION_WEIGHTS: map<string, real> := map[
    "implements" := 1.0, "contains" := 1.0, "depends_on" := 1.0,
    "mentions" := 0.7, "references" := 0.7, "relates_to" := 0.7,
    "contradicts" := 1.1, "supersedes" := 1.1, "alternative_to" := 1.1,
    "derived_from" := 1.0
  ]

  const AUTO_TYPE_BONUS: map<string, real> := map[
    "contradicts" := 1.4, "supersedes" := 1.4, "alternative_to" := 1.4,
    "implements" := 1.0, "contains" := 1.0, "depends_on" := 1.0, "derived_from" := 1.0,
    "mentions" := 0.6, "references" := 0.6, "relates_to" := 0.6
  ]

  datatype Curve = Linear | Harmonic | TypeWeighted

  datatype Table = SeedTable | RelationsTable | EdgesTable

  /** The hop through which a memory was reached. */
  datatype HopRecord = HopRecord(distance: nat, table: Table, relationType: string, seed: Id)

  function MaxReal(a: real, b: real): real { if a >= b then a else b }

  function WeightOr(m: map<string, real>, k: string, default: real): real { if k in m then m[k] else default }

  function WeightFor(table: Table, relationType: string): real {
    match table
    case EdgesTable => MANUAL_EDGE_WEIGHT
    case RelationsTable => WeightOr(RELATION_WEIGHTS, relationType, 0.7)
    case SeedTable => 1.0
  }

  function HarmonicNumber(d: nat): (h: real)
    ensures d > 0 ==> h > 0.0
  {
    if d == 0 then 0.0 else HarmonicNumber(d - 1) + 1.0 / d as real
  }

  function Bonus(table: Table, relationType: string): real {
    if table == EdgesTable then MANUAL_EDGE_BONUS else WeightOr(AUTO_TYPE_BONUS, relationType, AUTO_TYPE_BONUS_DEFAULT)
  }

  /** The rank of a hop at distance d under a curve. */
  function HopRank(curve: Curve, d: nat, table: Table, relationType: string): real {
    if d == 0 then 1.0
    else
      var w := WeightFor(table, relationType);
      match curve
      case Linear => 1.0 + d as real * (1.0 / MaxReal(w, EPS))
      case Harmonic => 1.0 + HarmonicNumber(d) * (1.0 / MaxReal(w, EPS))
      case TypeWeighted => 1.0 + d as real * (1.0 / MaxReal(w * Bonus(table, relationType), EPS))
  }

  function RankFor(rec: HopRecord, curve: Curve): real {
    HopRank(curve, rec.distance, rec.table, rec.relationType)
  }

  /** Under every curve a seed outranks whatever is reached by a hop. */
  lemma SeedsRankFirst(curve: Curve, d: nat, table: Table, relationType: string, table0: Table, relationType0: string)
    requires d > 0
    ensures HopRank(curve, 0, table0, relationType0) < HopRank(curve, d, table, relationType)
  {
    var w := WeightFor(table, relationType);
    assert MaxReal(w, EPS) > 0.0 && MaxReal(w * Bonus(table, relationType), EPS) > 0.0;
    PositiveProduct(d as real, MaxReal(w, EPS));
    PositiveProduct(HarmonicNumber(d), MaxReal(w, EPS));
    PositiveProduct(d as real, MaxReal(w * Bonus(table, relationType), EPS));
  }

  lemma PositiveProduct(x: real, m: real)
    requires x > 0.0 && m > 0.0
    ensures x * (1.0 / m) > 0.0
  {
    assert 1.0 / m > 0.0;
  }

  // ----- the tables

  datatype Mention = Mention(memory: Uuid, entity: Id)

  datatype Relation = Relation(source: Id, target: Id, relationType: string)

  datatype MemoryEdge = MemoryEdge(source: Uuid, target: Uuid, relation: string)

  /** entities maps an entity to its canonical entity, if it has been merged. */
  datatype Store = Store(memories: set<Uuid>, entities: map<Id, Option<Id>>, mentions: set<Mention>,
                         relations: set<Relation>, edges: set<MemoryEdge>)
  {
    function Canonical(e: Id): Id
      requires e in entities
    {
      if entities[e].Some? then entities[e].value else e
    }

    function MemoriesMentioning(seed: Id): set<Uuid> {
      set m | m in mentions && m.entity in entities && Canonical(m.entity) == seed :: m.memory
    }

    /** Joins an entity column against an entity or against its canonical entity. */
    predicate Joins(column: Id, e: Id)
      requires e in entities
    {
      column == Canonical(e) || column == e
    }

    function EntityMediated(memory: Uuid): set<Hop> {
      set ms, r, mt |
        && ms in mentions && ms.memory == memory && ms.entity in entities
        && r in relations && Joins(r.source, ms.entity)
        && r.target in entities
        && mt in mentions && Joins(mt.entity, r.target)
        && mt.memory != memory
        :: Hop(RelationsTable, r.relationType, mt.memory)
    }

    function MemoryDirect(memory: Uuid): set<Hop> {
      set e | e in edges && e.source == memory :: Hop(EdgesTable, e.relation, e.target)
    }

    function HopsOf(table: Table, memory: Uuid): set<Hop> {
      match table
      case RelationsTable => EntityMediated(memory)
      case EdgesTable => MemoryDirect(memory)
      case SeedTable => {}
    }

    /** Every memory a hop can start from. */
    function HopSources(): set<Uuid> {
      (set m | m in mentions :: m.memory) + (set e | e in edges :: e.source)
    }

    /** The queries of the channel, as functions. */
    function Queries(): (c: Channel)
      ensures c.Valid()
    {
      Channel((table, m) => HopsOf(table, m), seed => MemoriesMentioning(seed), HopSources())
    }
  }

  datatype Hop = Hop(table: Table, relationType: string, memory: Uuid)

  /** What the search asks of the database: hops from a memory, memories mentioning a seed, and where hops can start. */
  datatype Channel = Channel(hopsOf: (Table, Uuid) -> set<Hop>, mentioning: Id -> set<Uuid>, sources: set<Uuid>) {
    ghost predicate Valid() {
      forall t, m :: hopsOf(t, m) != {} ==> m in sources && t != SeedTable
    }

    /** One memory leads to another by some hop. */
    ghost function HopEdges(): Edges<Uuid> {
      set m, t, h | m in sources && t in {RelationsTable, EdgesTable} && h in hopsOf(t, m) :: (m, h.memory)
    }
  }

  lemma HopEdge(c: Channel, m: Uuid, table: Table, h: Hop)
    requires c.Valid() && h in c.hopsOf(table, m)
    ensures (m, h.memory) in c.HopEdges()
  {
  }

  // ----- what the channel should find

  ghost function SeedMemories(c: Channel, seeds: set<Id>): set<Uuid> {
    set s, m | s in seeds && m in c.mentioning(s) :: m
  }

  /** h is a last hop arriving at distance d: it starts from a memory at distance d - 1. */
  ghost predicate Arrival(c: Channel, S: set<Uuid>, d: nat, h: Hop) {
    d > 0 && exists u, t :: AtDistance(c.HopEdges(), S, u, d - 1) && h in c.hopsOf(t, u)
  }

  function RankOfHop(curve: Curve, d: nat, h: Hop): real {
    HopRank(curve, d, h.table, h.relationType)
  }

  /** r is the least rank of all the hops in H that arrive at v. */
  ghost predicate LeastOver(curve: Curve, d: nat, H: iset<Hop>, v: Uuid, r: real) {
    && (exists h :: h in H && h.memory == v && RankOfHop(curve, d, h) == r)
    && (forall h :: h in H && h.memory == v ==> r <= RankOfHop(curve, d, h))
  }

  ghost function Arrivals(c: Channel, S: set<Uuid>, d: nat): iset<Hop> {
    iset h | Arrival(c, S, d, h)
  }

  /** The rank of a memory at distance d: 1 for a seed, else the minimum over the last hops that arrive there. */
  ghost predicate MinimalRank(c: Channel, curve: Curve, S: set<Uuid>, v: Uuid, d: nat, r: real) {
    if d == 0 then r == 1.0 else LeastOver(curve, d, Arrivals(c, S, d), v, r)
  }

  /** The recorded seed is one of the seeds, and it really is that near. */
  ghost predicate SeedTraced(c: Channel, seeds: set<Id>, v: Uuid, rec: HopRecord) {
    rec.seed in seeds && v in Ball(c.HopEdges(), c.mentioning(rec.seed), rec.distance)
  }

  ghost predicate Best(c: Channel, curve: Curve, seeds: set<Id>, v: Uuid, rec: HopRecord) {
    && AtDistance(c.HopEdges(), SeedMemories(c, seeds), v, rec.distance)
    && MinimalRank(c, curve, SeedMemories(c, seeds), v, rec.distance, RankFor(rec, curve))
    && SeedTraced(c, seeds, v, rec)
  }

  type Visited = map<Uuid, HopRecord>

  /** All memories at most d hops away have been visited, each with its best record. */
  ghost predicate Complete(c: Channel, curve: Curve, seeds: set<Id>, d: nat, visited: Visited) {
    && visited.Keys == Ball(c.HopEdges(), SeedMemories(c, seeds), d)
    && forall v {:trigger Best(c, curve, seeds, v, visited[v])} :: v in visited ==> Best(c, curve, seeds, v, visited[v])
  }

  // ----- the search

  /** Records the candidate if the memory is new, nearer than recorded, or as near with a strictly lower rank. */
  function Consider(visited: Visited, memory: Uuid, candidate: HopRecord, curve: Curve): Visited {
    if memory !in visited then visited[memory := candidate]
    else if candidate.distance < visited[memory].distance then visited[memory := candidate]
    else if candidate.distance > visited[memory].distance then visited
    else if RankFor(candidate, curve) < RankFor(visited[memory], curve) then visited[memory := candidate]
    else visited
  }

  ghost function Reached(done: set<Hop>): set<Uuid> {
    set h | h in done :: h.memory
  }

  ghost function AsIset(done: set<Hop>): iset<Hop> {
    iset h | h in done
  }

  /** A record written at this level: the best of the hops done so far. */
  ghost predicate BestSoFar(c: Channel, curve: Curve, seeds: set<Id>, d: nat, done: set<Hop>, v: Uuid, rec: HopRecord) {
    && rec.distance == d
    && LeastOver(curve, d, AsIset(done), v, RankFor(rec, curve))
    && SeedTraced(c, seeds, v, rec)
  }

  /** Level d so far: the hops in `done` have been considered on top of the finished levels in `base`. */
  ghost predicate AtLevel(c: Channel, curve: Curve, seeds: set<Id>, d: nat, base: Visited, done: set<Hop>,
                          visited: Visited) {
    && visited.Keys == base.Keys + Reached(done)
    && (forall v :: v in base ==> visited[v] == base[v] && base[v].distance < d)
    && (forall v {:trigger BestSoFar(c, curve, seeds, d, done, v, visited[v])} ::
          v in visited && v !in base ==> BestSoFar(c, curve, seeds, d, done, v, visited[v]))
  }

  lemma LeastOneMore(curve: Curve, d: nat, done: set<Hop>, v: Uuid, r: real, h: Hop)
    requires LeastOver(curve, d, AsIset(done), v, r)
    ensures h.memory == v && RankOfHop(curve, d, h) < r
        ==> LeastOver(curve, d, AsIset(done + {h}), v, RankOfHop(curve, d, h))
    ensures !(h.memory == v && RankOfHop(curve, d, h) < r) ==> LeastOver(curve, d, AsIset(done + {h}), v, r)
  {
    assert forall g :: g in AsIset(done + {h}) <==> g in AsIset(done) || g == h;
  }

  lemma LeastFirst(curve: Curve, d: nat, done: set<Hop>, h: Hop)
    requires h.memory !in Reached(done)
    ensures LeastOver(curve, d, AsIset(done + {h}), h.memory, RankOfHop(curve, d, h))
  {
    assert forall g :: g in AsIset(done + {h}) <==> g in AsIset(done) || g == h;
  }

  lemma ConsiderKeepsLevel(c: Channel, curve: Curve, seeds: set<Id>, d: nat, base: Visited, done: set<Hop>,
                           visited: Visited, h: Hop, seed: Id)
    requires AtLevel(c, curve, seeds, d, base, done, visited) && d > 0
    requires SeedTraced(c, seeds, h.memory, HopRecord(d, h.table, h.relationType, seed))
    ensures AtLevel(c, curve, seeds, d, base, done + {h},
                    Consider(visited, h.memory, HopRecord(d, h.table, h.relationType, seed), curve))
  {
    var rec := HopRecord(d, h.table, h.relationType, seed);
    var visited' := Consider(visited, h.memory, rec, curve);
    assert Reached(done + {h}) == Reached(done) + {h.memory};
    forall v | v in visited' && v !in base
      ensures BestSoFar(c, curve, seeds, d, done + {h}, v, visited'[v])
    {
      if v in visited {
        assert BestSoFar(c, curve, seeds, d, done, v, visited[v]);
        LeastOneMore(curve, d, done, v, RankFor(visited[v], curve), h);
      } else {
        LeastFirst(curve, d, done, h);
      }
    }
  }

  /** Every hop of `hops` arrives at distance d on the trace of `seed`. */
  ghost predicate HopsTraced(c: Channel, seeds: set<Id>, d: nat, seed: Id, hops: set<Hop>) {
    forall h :: h in hops ==> SeedTraced(c, seeds, h.memory, HopRecord(d, h.table, h.relationType, seed))
  }

  lemma TraceHops(c: Channel, seeds: set<Id>, u: Uuid, rec: HopRecord, table: Table)
    requires c.Valid() && SeedTraced(c, seeds, u, rec)
    ensures HopsTraced(c, seeds, rec.distance + 1, rec.seed, c.hopsOf(table, u))
  {
    forall h | h in c.hopsOf(table, u)
      ensures SeedTraced(c, seeds, h.memory, HopRecord(rec.distance + 1, h.table, h.relationType, rec.seed))
    {
      HopEdge(c, u, table, h);
      TraceEdge(c.HopEdges(), c.mentioning(rec.seed), rec.distance, u, h.memory);
    }
  }

  lemma TraceEdge(E: Edges<Uuid>, S: set<Uuid>, d: nat, u: Uuid, v: Uuid)
    requires u in Ball(E, S, d) && (u, v) in E
    ensures v in Ball(E, S, d + 1)
  {
  }

  /** The hops from one memory through one table. */
  method HopFrom(c: Channel, curve: Curve, d: nat, hops: set<Hop>, seed: Id, visited0: Visited,
                 ghost seeds: set<Id>, ghost base: Visited, ghost done: set<Hop>)
    returns (visited: Visited)
    requires AtLevel(c, curve, seeds, d, base, done, visited0) && d > 0
    requires HopsTraced(c, seeds, d, seed, hops)
    ensures AtLevel(c, curve, seeds, d, base, done + hops, visited)
  {
    visited := visited0;
    var todo := hops;
    ghost var sofar := done;
    while todo != {}
      invariant todo <= hops && sofar <= done + hops && done + hops == sofar + todo
      invariant AtLevel(c, curve, seeds, d, base, sofar, visited)
      decreases todo
    {
      var h :| h in todo;
      ConsiderKeepsLevel(c, curve, seeds, d, base, sofar, visited, h, seed);
      visited := Consider(visited, h.memory, HopRecord(d, h.table, h.relationType, seed), curve);
      todo, sofar := todo - {h}, sofar + {h};
    }
    assert sofar == done + hops;
  }

  ghost function AllHops(c: Channel, table: Table, F: set<Uuid>): set<Hop> {
    set u, h | u in F && h in c.hopsOf(table, u) :: h
  }

  /** The hops of one level through one table, from every memory of the frontier. */
  method HopThrough(c: Channel, curve: Curve, d: nat, table: Table, frontier: set<Uuid>, visited0: Visited,
                    ghost seeds: set<Id>, ghost base: Visited, ghost done: set<Hop>)
    returns (visited: Visited, ghost sofar: set<Hop>)
    requires c.Valid() && AtLevel(c, curve, seeds, d, base, done, visited0) && d > 0
    requires forall u :: u in frontier ==> u in base && SeedTraced(c, seeds, u, base[u]) && base[u].distance + 1 == d
    ensures AtLevel(c, curve, seeds, d, base, sofar, visited)
    ensures sofar == done + AllHops(c, table, frontier)
  {
    visited := visited0;
    var todo := frontier;
    ghost var F: set<Uuid> := {};
    sofar := done;
    assert done + AllHops(c, table, F) == done;
    while todo != {}
      invariant F + todo == frontier && sofar == done + AllHops(c, table, F)
      invariant AtLevel(c, curve, seeds, d, base, sofar, visited)
      decreases todo
    {
      var u :| u in todo;
      assert visited[u] == base[u];
      TraceHops(c, seeds, u, base[u], table);
      AllHopsOneMore(c, table, F, u);
      visited := HopFrom(c, curve, d, c.hopsOf(table, u), visited[u].seed, visited, seeds, base, sofar);
      todo, F, sofar := todo - {u}, F + {u}, sofar + c.hopsOf(table, u);
    }
    assert F == frontier;
  }

  lemma AllHopsOneMore(c: Channel, table: Table, F: set<Uuid>, u: Uuid)
    ensures AllHops(c, table, F + {u}) == AllHops(c, table, F) + c.hopsOf(table, u)
  {
  }

  function Frontier(visited: Visited, d: nat): set<Uuid> {
    set v | v in visited && visited[v].distance == d
  }

  /** The frontier of the next level: the memories at distance d. */
  lemma FrontierIsLayer(c: Channel, curve: Curve, seeds: set<Id>, d: nat, visited: Visited, v: Uuid)
    requires Complete(c, curve, seeds, d, visited)
    ensures v in Frontier(visited, d) <==> AtDistance(c.HopEdges(), SeedMemories(c, seeds), v, d)
  {
    if v in visited {
      assert Best(c, curve, seeds, v, visited[v]);
      if AtDistance(c.HopEdges(), SeedMemories(c, seeds), v, d) {
        DistanceUnique(c.HopEdges(), SeedMemories(c, seeds), v, d, visited[v].distance);
      }
    }
  }

  lemma LevelArrivals(c: Channel, curve: Curve, seeds: set<Id>, d: nat, base: Visited, done: set<Hop>, h: Hop)
    requires c.Valid() && Complete(c, curve, seeds, d, base)
    requires done == {} + AllHops(c, RelationsTable, Frontier(base, d)) + AllHops(c, EdgesTable, Frontier(base, d))
    ensures h in done <==> Arrival(c, SeedMemories(c, seeds), d + 1, h)
  {
    if h in done {
      var u, t :| u in Frontier(base, d) && h in c.hopsOf(t, u);
      FrontierIsLayer(c, curve, seeds, d, base, u);
      assert AtDistance(c.HopEdges(), SeedMemories(c, seeds), u, d) && h in c.hopsOf(t, u);
    }
    if Arrival(c, SeedMemories(c, seeds), d + 1, h) {
      var u, t :| AtDistance(c.HopEdges(), SeedMemories(c, seeds), u, d) && h in c.hopsOf(t, u);
      FrontierIsLayer(c, curve, seeds, d, base, u);
      assert t != SeedTable;
    }
  }

  lemma LevelReaches(c: Channel, curve: Curve, seeds: set<Id>, d: nat, base: Visited, done: set<Hop>, v: Uuid)
    requires c.Valid() && Complete(c, curve, seeds, d, base)
    requires forall h :: h in done <==> Arrival(c, SeedMemories(c, seeds), d + 1, h)
    ensures v in Ball(c.HopEdges(), SeedMemories(c, seeds), d + 1) && v !in base ==>
      AtDistance(c.HopEdges(), SeedMemories(c, seeds), v, d + 1)
    ensures v in base.Keys + Reached(done) <==> v in Ball(c.HopEdges(), SeedMemories(c, seeds), d + 1)
  {
    var E, S := c.HopEdges(), SeedMemories(c, seeds);
    if v in Reached(done) {
      var h :| h in done && h.memory == v;
      assert Arrival(c, S, d + 1, h);
      var u, t :| AtDistance(E, S, u, d) && h in c.hopsOf(t, u);
      HopEdge(c, u, t, h);
    }
    if v in Ball(E, S, d + 1) && v !in base {
      var e :| e in E && e.0 in Ball(E, S, d) && e.1 == v;
      var t, h :| h in c.hopsOf(t, e.0) && h.memory == v;
      assert AtDistance(E, S, e.0, d) && h in c.hopsOf(t, e.0);
      assert Arrival(c, S, d + 1, h);
    }
  }

  /** All hops of a level considered: the level is complete. */
  lemma LevelCompletes(c: Channel, curve: Curve, seeds: set<Id>, d: nat, base: Visited, done: set<Hop>,
                       visited: Visited)
    requires c.Valid() && Complete(c, curve, seeds, d, base)
    requires done == {} + AllHops(c, RelationsTable, Frontier(base, d)) + AllHops(c, EdgesTable, Frontier(base, d))
    requires AtLevel(c, curve, seeds, d + 1, base, done, visited)
    ensures Complete(c, curve, seeds, d + 1, visited)
  {
    forall h ensures h in done <==> Arrival(c, SeedMemories(c, seeds), d + 1, h) {
      LevelArrivals(c, curve, seeds, d, base, done, h);
    }
    forall v ensures v in visited <==> v in Ball(c.HopEdges(), SeedMemories(c, seeds), d + 1) {
      LevelReaches(c, curve, seeds, d, base, done, v);
    }
    forall v | v in visited ensures Best(c, curve, seeds, v, visited[v]) {
      if v in base {
        assert Best(c, curve, seeds, v, base[v]);
      } else {
        assert BestSoFar(c, curve, seeds, d + 1, done, v, visited[v]);
        NewIsBest(c, curve, seeds, d, done, v, visited[v]);
      }
    }
  }

  lemma NewIsBest(c: Channel, curve: Curve, seeds: set<Id>, d: nat, done: set<Hop>, v: Uuid, rec: HopRecord)
    requires forall h :: h in done <==> Arrival(c, SeedMemories(c, seeds), d + 1, h)
    requires BestSoFar(c, curve, seeds, d + 1, done, v, rec)
    requires AtDistance(c.HopEdges(), SeedMemories(c, seeds), v, d + 1)
    ensures Best(c, curve, seeds, v, rec)
  {
    assert AsIset(done) == Arrivals(c, SeedMemories(c, seeds), d + 1);
  }

  /** An empty frontier: no level adds anything any more. */
  lemma EmptyFrontier(c: Channel, curve: Curve, seeds: set<Id>, d: nat, visited: Visited, n: nat)
    requires Complete(c, curve, seeds, d, visited) && Frontier(visited, d) == {} && d <= n
    ensures Complete(c, curve, seeds, n, visited)
  {
    var E, S := c.HopEdges(), SeedMemories(c, seeds);
    forall v | v in Ball(E, S, d) ensures d > 0 && v in Ball(E, S, d - 1) {
      FrontierIsLayer(c, curve, seeds, d, visited, v);
    }
    if d > 0 {
      BallMonotone(E, S, d - 1, d);
      assert Ball(E, S, d - 1) == Ball(E, S, d);
      ClosedBall(E, S, d - 1, n);
    } else {
      ClosedBall(E, S, 0, n);
    }
    BallMonotone(E, S, d, n);
  }

  ghost function AsSet(seeds: seq<Id>): set<Id> {
    set s | s in seeds
  }

  /** Every memory visited so far mentions a seed and is at distance 0. */
  ghost predicate AllSeeds(c: Channel, seeds: set<Id>, visited: Visited) {
    forall v :: v in visited ==> visited[v].distance == 0 && SeedTraced(c, seeds, v, visited[v])
  }

  method SeedFrom(c: Channel, curve: Curve, seed: Id, visited0: Visited, ghost seeds: set<Id>)
      returns (visited: Visited)
    requires AllSeeds(c, seeds, visited0) && seed in seeds
    ensures AllSeeds(c, seeds, visited) && visited.Keys == visited0.Keys + c.mentioning(seed)
  {
    visited := visited0;
    var todo := c.mentioning(seed);
    ghost var taken: set<Uuid> := {};
    while todo != {}
      invariant taken + todo == c.mentioning(seed)
      invariant visited.Keys == visited0.Keys + taken && AllSeeds(c, seeds, visited)
      decreases todo
    {
      var m :| m in todo;
      visited := Consider(visited, m, HopRecord(0, SeedTable, "", seed), curve);
      todo, taken := todo - {m}, taken + {m};
    }
    assert taken == c.mentioning(seed);
  }

  /** The seed level: every memory mentioning a seed entity, at distance 0. */
  method SeedLevel(c: Channel, curve: Curve, seeds: seq<Id>) returns (visited: Visited)
    ensures Complete(c, curve, AsSet(seeds), 0, visited)
  {
    visited := map[];
    for i := 0 to |seeds|
      invariant visited.Keys == SeedMemories(c, AsSet(seeds[..i])) && AllSeeds(c, AsSet(seeds), visited)
    {
      assert seeds[i] in seeds && seeds[..i + 1] == seeds[..i] + [seeds[i]];
      assert AsSet(seeds[..i + 1]) == AsSet(seeds[..i]) + {seeds[i]};
      visited := SeedFrom(c, curve, seeds[i], visited, AsSet(seeds));
      assert SeedMemories(c, AsSet(seeds[..i + 1])) == SeedMemories(c, AsSet(seeds[..i])) + c.mentioning(seeds[i]);
    }
    assert seeds[..|seeds|] == seeds;
  }

  /** One level: the relation hops of the whole frontier, then its edge hops. */
  method NextLevel(c: Channel, curve: Curve, frontier: set<Uuid>, d: nat, base: Visited, ghost seeds: set<Id>)
      returns (visited: Visited)
    requires c.Valid() && Complete(c, curve, seeds, d, base) && frontier == Frontier(base, d)
    ensures Complete(c, curve, seeds, d + 1, visited)
  {
    LevelStarts(c, curve, seeds, d, base);
    ghost var done;
    visited, done := HopThrough(c, curve, d + 1, RelationsTable, frontier, base, seeds, base, {});
    visited, done := HopThrough(c, curve, d + 1, EdgesTable, frontier, visited, seeds, base, done);
    LevelCompletes(c, curve, seeds, d, base, done, visited);
  }

  lemma LevelStarts(c: Channel, curve: Curve, seeds: set<Id>, d: nat, base: Visited)
    requires Complete(c, curve, seeds, d, base)
    ensures AtLevel(c, curve, seeds, d + 1, base, {}, base)
    ensures forall u ::
      u in Frontier(base, d) ==> u in base && SeedTraced(c, seeds, u, base[u]) && base[u].distance + 1 == d + 1
  {
    DistanceBelow(c, curve, seeds, d, base);
    assert Reached({}) == {};
    forall u | u in Frontier(base, d) ensures SeedTraced(c, seeds, u, base[u]) {
      assert Best(c, curve, seeds, u, base[u]);
    }
  }

  /** The levels one after the other, until the depth cap or an empty frontier. */
  method Search(c: Channel, curve: Curve, seeds: seq<Id>, depthCap: int) returns (visited: Visited)
    requires c.Valid()
    ensures Complete(c, curve, AsSet(seeds), if depthCap < 0 then 0 else depthCap, visited)
  {
    visited := SeedLevel(c, curve, seeds);
    var depth := 1;
    while depth <= depthCap
      invariant depth >= 1 && (depthCap >= 0 ==> depth <= depthCap + 1) && (depthCap < 0 ==> depth == 1)
      invariant Complete(c, curve, AsSet(seeds), depth - 1, visited)
    {
      var frontier := Frontier(visited, depth - 1);
      if frontier == {} {
        EmptyFrontier(c, curve, AsSet(seeds), depth - 1, visited, depthCap);
        return;
      }
      visited := NextLevel(c, curve, frontier, depth - 1, visited, AsSet(seeds));
      depth := depth + 1;
    }
  }

  lemma DistanceBelow(c: Channel, curve: Curve, seeds: set<Id>, d: nat, visited: Visited)
    requires Complete(c, curve, seeds, d, visited)
    ensures forall v :: v in visited ==> visited[v].distance <= d
  {
    forall v | v in visited ensures visited[v].distance <= d {
      assert Best(c, curve, seeds, v, visited[v]);
      DistanceWithin(c.HopEdges(), SeedMemories(c, seeds), v, visited[v].distance, d);
    }
  }

  lemma DistanceWithin(E: Edges<Uuid>, S: set<Uuid>, v: Uuid, k: nat, d: nat)
    requires AtDistance(E, S, v, k) && v in Ball(E, S, d)
    ensures k <= d
  {
    if k > d {
      BallMonotone(E, S, d, k - 1);
    }
  }

  // ----- ranking and cutting

  datatype Item = Item(memory: Uuid, rank: real, distance: nat)

  datatype Candidate = Candidate(item: Item, seed: Id)

  /** The sort key: rank, then memory id. */
  predicate Before(a: Item, b: Item) {
    a.rank < b.rank || (a.rank == b.rank && a.memory.number < b.memory.number)
  }

  /** T holds exactly the live memories within the depth cap, each with its distance and its minimal rank. */
  ghost predicate IsRanking(c: Channel, curve: Curve, seeds: set<Id>, alive: set<Uuid>, cap: nat, T: set<Item>) {
    && (forall x :: x in T ==>
          && x.memory in alive && x.memory in Ball(c.HopEdges(), SeedMemories(c, seeds), cap)
          && AtDistance(c.HopEdges(), SeedMemories(c, seeds), x.memory, x.distance)
          && MinimalRank(c, curve, SeedMemories(c, seeds), x.memory, x.distance, x.rank))
    && (forall v ::
       v in alive && v in Ball(c.HopEdges(), SeedMemories(c, seeds), cap) ==> exists x :: x in T && x.memory == v)
  }

  /** The ranking is determined by the tables: no iteration order shows in it. */
  lemma RankingUnique(c: Channel, curve: Curve, seeds: set<Id>, alive: set<Uuid>, cap: nat, T: set<Item>, T': set<Item>)
    requires IsRanking(c, curve, seeds, alive, cap, T) && IsRanking(c, curve, seeds, alive, cap, T')
    ensures T == T'
  {
    RankingIncluded(c, curve, seeds, alive, cap, T, T');
    RankingIncluded(c, curve, seeds, alive, cap, T', T);
  }

  lemma RankingIncluded(c: Channel, curve: Curve, seeds: set<Id>, alive: set<Uuid>, cap: nat, T: set<Item>,
                        T': set<Item>)
    requires IsRanking(c, curve, seeds, alive, cap, T) && IsRanking(c, curve, seeds, alive, cap, T')
    ensures T <= T'
  {
    var E, S := c.HopEdges(), SeedMemories(c, seeds);
    forall x | x in T ensures x in T' {
      var y :| y in T' && y.memory == x.memory;
      DistanceUnique(E, S, x.memory, x.distance, y.distance);
      MinimalRankUnique(c, curve, S, x.memory, x.distance, x.rank, y.rank);
    }
  }

  lemma MinimalRankUnique(c: Channel, curve: Curve, S: set<Uuid>, v: Uuid, d: nat, r: real, r': real)
    requires MinimalRank(c, curve, S, v, d, r) && MinimalRank(c, curve, S, v, d, r')
    ensures r == r'
  {
    if d > 0 {
      var h :| h in Arrivals(c, S, d) && h.memory == v && RankOfHop(curve, d, h) == r;
      var h' :| h' in Arrivals(c, S, d) && h'.memory == v && RankOfHop(curve, d, h') == r';
    }
  }

  /** The first `limit` items of T in sort order. */
  ghost predicate IsTop(T: set<Item>, limit: nat, r: seq<Item>) {
    && (forall i, j :: 0 <= i < j < |r| ==> Before(r[i], r[j]))
    && (forall i :: 0 <= i < |r| ==> r[i] in T)
    && |r| == (if |T| < limit then |T| else limit)
    && (forall x, i :: x in T && x !in r && 0 <= i < |r| ==> Before(r[i], x))
  }

  /** So is the list that is returned: two top lists of one ranking are equal. */
  lemma {:induction false} TopUnique(T: set<Item>, limit: nat, r: seq<Item>, r': seq<Item>)
    requires IsTop(T, limit, r) && IsTop(T, limit, r')
    ensures r == r'
  {
    if |r| > 0 {
      assert r[0] == r'[0] by {
        if r[0] != r'[0] {
          FirstIsLeast(T, limit, r, r'[0]);
          FirstIsLeast(T, limit, r', r[0]);
        }
      }
      TopTail(T, limit, r);
      TopTail(T, limit, r');
      TopUnique(T - {r[0]}, limit - 1, r[1..], r'[1..]);
      assert r == [r[0]] + r[1..] && r' == [r'[0]] + r'[1..];
    }
  }

  lemma FirstIsLeast(T: set<Item>, limit: nat, r: seq<Item>, x: Item)
    requires IsTop(T, limit, r) && |r| > 0 && x in T && x != r[0]
    ensures Before(r[0], x)
  {
    if x in r {
      var i :| 0 <= i < |r| && r[i] == x;
    }
  }

  lemma TopTail(T: set<Item>, limit: nat, r: seq<Item>)
    requires IsTop(T, limit, r) && |r| > 0
    ensures IsTop(T - {r[0]}, limit - 1, r[1..])
  {
    forall x, i | x in T - {r[0]} && x !in r[1..] && 0 <= i < |r| - 1
      ensures Before(r[1..][i], x)
    {
      assert r == [r[0]] + r[1..];
    }
  }

  /** The item that sorts first. */
  method Least(T: set<Item>) returns (m: Item)
    requires T != {} && Keyed(T)
    ensures m in T && forall x :: x in T && x != m ==> Before(m, x)
  {
    m :| m in T;
    var todo := T - {m};
    while todo != {}
      invariant m in T - todo && todo <= T
      invariant forall x :: x in T - todo && x != m ==> Before(m, x)
      decreases todo
    {
      var x :| x in todo;
      assert x in T && m in T && x != m;
      BeforeTotal(x, m);
      ghost var m0 := m;
      if Before(x, m) {
        m := x;
      }
      forall y | y in T - (todo - {x}) && y != m ensures Before(m, y) {
        assert y == x || y == m0 || Before(m0, y);
      }
      todo := todo - {x};
    }
  }

  lemma BeforeTotal(x: Item, y: Item)
    requires x.memory != y.memory
    ensures Before(x, y) || Before(y, x)
  {
    assert x.memory == Uuid(x.memory.number) && y.memory == Uuid(y.memory.number);
  }

  /** No memory appears twice. */
  ghost predicate Keyed(T: set<Item>) {
    forall x, y :: x in T && y in T && x.memory == y.memory ==> x == y
  }

  /** The library sort by (rank, memory id), and the slice that follows it. */
  method SortAndCut(T: set<Item>, limit: nat) returns (r: seq<Item>)
    requires Keyed(T)
    ensures IsTop(T, limit, r)
  {
    r := [];
    var rest := T;
    while rest != {} && |r| < limit
      invariant rest <= T && |r| + |rest| == |T| && |r| <= limit
      invariant forall x :: x in T <==> x in rest || x in r
      invariant forall i, x :: 0 <= i < |r| && x in rest ==> Before(r[i], x)
      invariant forall i, j :: 0 <= i < j < |r| ==> Before(r[i], r[j])
    {
      var m := Least(rest);
      r, rest := r + [m], rest - {m};
    }
  }

  /** What a visited memory contributes to the ranking. */
  function ItemFor(visited: Visited, curve: Curve, v: Uuid): Item
    requires v in visited
  {
    Item(v, RankFor(visited[v], curve), visited[v].distance)
  }

  lemma CompleteIsRanking(c: Channel, curve: Curve, seeds: set<Id>, alive: set<Uuid>, cap: nat, visited: Visited,
                          T: set<Item>)
    requires Complete(c, curve, seeds, cap, visited)
    requires T == set v | v in visited && v in alive :: ItemFor(visited, curve, v)
    ensures IsRanking(c, curve, seeds, alive, cap, T) && Keyed(T)
  {
    forall v | v in visited ensures Best(c, curve, seeds, v, visited[v]) {
    }
    forall v | v in alive && v in Ball(c.HopEdges(), SeedMemories(c, seeds), cap)
      ensures exists x :: x in T && x.memory == v
    {
      assert ItemFor(visited, curve, v) in T;
    }
  }

  /** Each returned candidate carries a seed entity that reaches it in as many hops as its distance says. */
  ghost predicate SeedsTraced(c: Channel, seeds: set<Id>, r: seq<Candidate>) {
    forall x :: x in r ==> x.seed in seeds && x.item.memory in Ball(c.HopEdges(), c.mentioning(x.seed), x.item.distance)
  }

  function Items(r: seq<Candidate>): (items: seq<Item>)
    ensures |items| == |r| && forall i :: 0 <= i < |r| ==> items[i] == r[i].item
  {
    seq(|r|, i requires 0 <= i < |r| => r[i].item)
  }

  /**
    The channel, given the seed entities of the query.  The items returned are the first
    `limit` of the one ranking the tables determine; an empty entity table returns nothing.
   */
  method GraphProximity(db: Store, seeds: seq<Id>, curve: Curve, limit: nat, depthCap: int) returns (r: seq<Candidate>)
    ensures db.entities == map[] ==> r == []
    ensures db.entities != map[] ==>
      exists T :: IsRanking(db.Queries(), curve, AsSet(seeds), db.memories, if depthCap < 0 then 0 else depthCap, T)
               && IsTop(T, limit, Items(r))
    ensures SeedsTraced(db.Queries(), AsSet(seeds), r)
  {
    r := [];
    if db.entities == map[] {
      return;
    }
    var c := db.Queries();
    ghost var cap := if depthCap < 0 then 0 else depthCap;
    var visited := Search(c, curve, seeds, depthCap);
    var T := set v | v in visited && v in db.memories :: ItemFor(visited, curve, v);
    CompleteIsRanking(c, curve, AsSet(seeds), db.memories, cap, visited, T);
    var top := SortAndCut(T, limit);
    r := AttachSeeds(c, curve, AsSet(seeds), cap, visited, T, top);
    assert Items(r) == top;
  }

  method AttachSeeds(c: Channel, curve: Curve, ghost seeds: set<Id>, ghost cap: nat, visited: Visited,
                     ghost T: set<Item>, top: seq<Item>)
    returns (r: seq<Candidate>)
    requires Complete(c, curve, seeds, cap, visited)
    requires forall x :: x in T ==> x.memory in visited && x.distance == visited[x.memory].distance
    requires forall i :: 0 <= i < |top| ==> top[i] in T
    ensures |r| == |top| && forall i :: 0 <= i < |r| ==> r[i].item == top[i]
    ensures SeedsTraced(c, seeds, r)
  {
    r := [];
    for i := 0 to |top|
      invariant |r| == i && forall j :: 0 <= j < i ==> r[j].item == top[j]
      invariant SeedsTraced(c, seeds, r)
    {
      assert top[i] in T;
      assert Best(c, curve, seeds, top[i].memory, visited[top[i].memory]);
      r := r + [Candidate(top[i], visited[top[i].memory].seed)];
    }
  }
}
