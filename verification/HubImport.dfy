/**
  Importing one database into another: memories are matched by content hash, then by id;
  edges follow the matched memories.
 */
module HubImport {
  import opened Ids
  import opened Wrappers

  type Hash(==, !new)

  /** Title, content, tags and the other columns that are copied as they are. */
  type Columns(==, !new)

  type Vector(==, !new)

  datatype Memory = Memory(hash: Hash, columns: Columns, embedded: bool)

  /** A row of the source's memories table. */
  datatype Row = Row(id: Id, memory: Memory)

  type Memories = map<Id, Memory>

  /** Ids are the primary key and hashes are unique in every database. */
  ghost predicate UniqueHashes(memories: Memories) {
    forall i, j :: i in memories && j in memories && memories[i].hash == memories[j].hash ==> i == j
  }

  ghost predicate ValidSource(rows: seq<Row>) {
    forall i, j :: 0 <= i < j < |rows| ==> rows[i].id != rows[j].id && rows[i].memory.hash != rows[j].memory.hash
  }

  // ----- memories

  predicate HasHash(memories: Memories, hash: Hash) {
    exists i :: i in memories && memories[i].hash == hash
  }

  /** A source row that the destination knows neither by content nor by id. */
  predicate IsNew(dest: Memories, row: Row) {
    !HasHash(dest, row.memory.hash) && row.id !in dest
  }

  /** Same id, unknown content: the destination keeps its own memory. */
  predicate Collides(dest: Memories, row: Row) {
    !HasHash(dest, row.memory.hash) && row.id in dest
  }

  /** The destination memory that stands for a source row. */
  ghost function Target(dest: Memories, row: Row): Id {
    if HasHash(dest, row.memory.hash) then var i :| i in dest && dest[i].hash == row.memory.hash; i else row.id
  }

  /** The destination after the rows have been copied.  Only what it held before decides which rows are. */
  function Copied(dest: Memories, rows: seq<Row>): Memories {
    if rows == [] then dest
    else
      var n := |rows| - 1;
      var before := Copied(dest, rows[..n]);
      if IsNew(dest, rows[n]) then before[rows[n].id := rows[n].memory] else before
  }

  ghost function Remap(dest: Memories, rows: seq<Row>): map<Id, Id> {
    if rows == [] then map[]
    else
      var n := |rows| - 1;
      Remap(dest, rows[..n])[rows[n].id := Target(dest, rows[n])]
  }

  function Imported(dest: Memories, rows: seq<Row>): nat {
    if rows == [] then 0
    else Imported(dest, rows[..|rows| - 1]) + if IsNew(dest, rows[|rows| - 1]) then 1 else 0
  }

  ghost predicate NewRow(dest: Memories, rows: seq<Row>, id: Id) {
    exists r :: r in rows && IsNew(dest, r) && r.id == id
  }

  /** The destination keeps what it has and gains exactly the new rows. */
  lemma {:induction false} CopiedExactly(dest: Memories, rows: seq<Row>)
    requires ValidSource(rows)
    ensures var after := Copied(dest, rows);
      && (forall i :: i in dest ==> i in after && after[i] == dest[i])
      && (forall r :: r in rows && IsNew(dest, r) ==> r.id in after && after[r.id] == r.memory)
      && (forall i :: i in after ==> i in dest || NewRow(dest, rows, i))
  {
    if rows != [] {
      var n := |rows| - 1;
      var first, last := rows[..n], rows[n];
      assert rows == first + [last];
      CopiedExactly(dest, first);
      forall r | r in first ensures r.id != last.id {
      }
      forall i | NewRow(dest, first, i) || (IsNew(dest, last) && i == last.id) ensures NewRow(dest, rows, i) {
        if NewRow(dest, first, i) {
          var r :| r in first && IsNew(dest, r) && r.id == i;
          assert r in rows;
        } else {
          assert last in rows;
        }
      }
    }
  }

  lemma {:induction false} ImportedCounts(dest: Memories, rows: seq<Row>)
    requires ValidSource(rows)
    ensures |Copied(dest, rows)| == |dest| + Imported(dest, rows)
  {
    if rows != [] {
      var n := |rows| - 1;
      ImportedCounts(dest, rows[..n]);
      CopiedExactly(dest, rows[..n]);
      var before, after := Copied(dest, rows[..n]), Copied(dest, rows);
      if IsNew(dest, rows[n]) {
        assert rows[n].id !in before;
        assert after.Keys == before.Keys + {rows[n].id};
      }
    }
  }

  lemma {:induction false} RemapExactly(dest: Memories, rows: seq<Row>)
    requires ValidSource(rows)
    ensures var remap := Remap(dest, rows);
      && (forall r :: r in rows ==> r.id in remap && remap[r.id] == Target(dest, r))
      && (forall i :: i in remap ==> exists r :: r in rows && r.id == i)
  {
    if rows != [] {
      var n := |rows| - 1;
      RemapExactly(dest, rows[..n]);
      assert rows == rows[..n] + [rows[n]];
    }
  }

  /** While rows are copied, a hash is found exactly when the destination had it from the start. */
  lemma FoundFromTheStart(dest: Memories, rows: seq<Row>, row: Row)
    requires ValidSource(rows) && UniqueHashes(dest)
    requires forall r :: r in rows ==> r.memory.hash != row.memory.hash && r.id != row.id
    ensures var now := Copied(dest, rows);
      && (forall i :: i in now && now[i].hash == row.memory.hash ==> i in dest && dest[i] == now[i])
      && (HasHash(now, row.memory.hash) <==> HasHash(dest, row.memory.hash))
      && (row.id in now <==> row.id in dest)
  {
    CopiedExactly(dest, rows);
    var now := Copied(dest, rows);
    if HasHash(dest, row.memory.hash) {
      var i :| i in dest && dest[i].hash == row.memory.hash;
      assert i in now;
    }
  }

  // ----- vectors

  /** A vector row is copied with a new embedded memory; a leftover row under the same id makes the insert fail. */
  predicate BringsVector(dest: Memories, vectors: map<Id, Vector>, row: Row) {
    IsNew(dest, row) && row.memory.embedded && row.id in vectors
  }

  function CopiedVectors(dest: Memories, mine: map<Id, Vector>, theirs: map<Id, Vector>, rows: seq<Row>)
    : map<Id, Vector>
  {
    if rows == [] then mine
    else
      var n := |rows| - 1;
      var before := CopiedVectors(dest, mine, theirs, rows[..n]);
      if BringsVector(dest, theirs, rows[n]) then before[rows[n].id := theirs[rows[n].id]] else before
  }

  ghost predicate Clash(dest: Memories, mine: map<Id, Vector>, theirs: map<Id, Vector>, rows: seq<Row>) {
    exists r :: r in rows && BringsVector(dest, theirs, r) && r.id in mine
  }

  lemma {:induction false} VectorsFrom(dest: Memories, mine: map<Id, Vector>, theirs: map<Id, Vector>, rows: seq<Row>,
                                       id: Id)
    requires forall r :: r in rows ==> r.id != id
    ensures id in CopiedVectors(dest, mine, theirs, rows) <==> id in mine
  {
    if rows != [] {
      VectorsFrom(dest, mine, theirs, rows[..|rows| - 1], id);
    }
  }

  // ----- edges

  datatype Link = Link(source: Id, target: Id, relation: string, properties: string)

  datatype SourceEdge = SourceEdge(id: Id, link: Link)

  type Edges = map<Id, Link>

  predicate SameTriple(a: Link, b: Link) {
    a.source == b.source && a.target == b.target && a.relation == b.relation
  }

  predicate HasTriple(edges: Edges, link: Link) {
    exists i :: i in edges && SameTriple(edges[i], link)
  }

  ghost predicate UniqueTriples(edges: Edges) {
    forall i, j :: i in edges && j in edges && SameTriple(edges[i], edges[j]) ==> i == j
  }

  predicate Resolves(remap: map<Id, Id>, link: Link) {
    link.source in remap && link.target in remap
  }

  function Mapped(remap: map<Id, Id>, link: Link): Link
    requires Resolves(remap, link)
  {
    link.(source := remap[link.source], target := remap[link.target])
  }

  /** newIds stands for the ids that uuid4 would give, one for each edge. */
  function CopiedEdges(edges: Edges, remap: map<Id, Id>, theirs: seq<SourceEdge>, newIds: seq<Id>): Edges
    requires |newIds| == |theirs|
  {
    if theirs == [] then edges
    else
      var n := |theirs| - 1;
      var before := CopiedEdges(edges, remap, theirs[..n], newIds[..n]);
      var e := theirs[n];
      if !Resolves(remap, e.link) || HasTriple(before, Mapped(remap, e.link)) then before
      else before[if e.id in before then newIds[n] else e.id := Mapped(remap, e.link)]
  }

  // ----- what an import does to the memories

  /** Every row the destination had is still there, and hashes stay unique. */
  lemma ImportKeepsMemories(dest: Memories, rows: seq<Row>)
    requires UniqueHashes(dest) && ValidSource(rows)
    ensures var after := Copied(dest, rows);
      UniqueHashes(after) && forall i :: i in dest ==> i in after && after[i] == dest[i]
  {
    CopiedExactly(dest, rows);
    var after := Copied(dest, rows);
    forall i, j | i in after && j in after && after[i].hash == after[j].hash ensures i == j {
      if i !in dest {
        NewRowKeepsUnique(dest, rows, i, j);
      } else if j !in dest {
        NewRowKeepsUnique(dest, rows, j, i);
      }
    }
  }

  lemma NewRowKeepsUnique(dest: Memories, rows: seq<Row>, i: Id, j: Id)
    requires ValidSource(rows) && i in Copied(dest, rows) && j in Copied(dest, rows) && i !in dest
    requires Copied(dest, rows)[i].hash == Copied(dest, rows)[j].hash
    ensures i == j
  {
    CopiedExactly(dest, rows);
    assert NewRow(dest, rows, i);
    var r :| r in rows && IsNew(dest, r) && r.id == i;
    assert !HasHash(dest, r.memory.hash);
    if j !in dest {
      assert NewRow(dest, rows, j);
      var q :| q in rows && IsNew(dest, q) && q.id == j;
    }
  }

  /** Every source memory stands for a destination memory, of the same content unless the ids collide. */
  lemma RemapLands(dest: Memories, rows: seq<Row>, r: Row)
    requires UniqueHashes(dest) && ValidSource(rows) && r in rows
    ensures var after, remap := Copied(dest, rows), Remap(dest, rows);
      && r.id in remap && remap[r.id] in after
      && (after[remap[r.id]].hash == r.memory.hash <==> !Collides(dest, r))
      && (Collides(dest, r) ==> remap[r.id] == r.id && after[r.id] == dest[r.id])
  {
    CopiedExactly(dest, rows);
    RemapExactly(dest, rows);
    assert r.id in dest && dest[r.id].hash == r.memory.hash ==> HasHash(dest, r.memory.hash);
  }

  lemma OnlyNewRowsAdded(dest: Memories, rows: seq<Row>, r: Row, i: Id)
    requires ValidSource(rows) && r in rows && !HasHash(dest, r.memory.hash) && i in Copied(dest, rows)
    ensures Copied(dest, rows)[i].hash == r.memory.hash ==> IsNew(dest, r)
  {
    CopiedExactly(dest, rows);
    if i !in dest {
      assert NewRow(dest, rows, i);
      var q :| q in rows && IsNew(dest, q) && q.id == i;
    }
  }

  /** After an import every row of the source is known, and stands for the same memory as before. */
  lemma KnownAfterwards(dest: Memories, rows: seq<Row>, r: Row)
    requires UniqueHashes(dest) && ValidSource(rows) && r in rows
    ensures !IsNew(Copied(dest, rows), r) && Target(Copied(dest, rows), r) == Target(dest, r)
  {
    var after := Copied(dest, rows);
    CopiedExactly(dest, rows);
    ImportKeepsMemories(dest, rows);
    if HasHash(dest, r.memory.hash) {
      var i := Target(dest, r);
      assert i in after && after[i].hash == r.memory.hash;
    } else if r.id !in dest {
      assert after[r.id] == r.memory;
    } else {
      forall i | i in after ensures after[i].hash != r.memory.hash {
        OnlyNewRowsAdded(dest, rows, r, i);
      }
    }
  }

  /** Importing the same source again copies no memory and finds the same counterparts. */
  lemma {:induction false} ReimportAddsNoMemory(dest: Memories, rows: seq<Row>, some: seq<Row>)
    requires UniqueHashes(dest) && ValidSource(rows) && some <= rows
    ensures var after := Copied(dest, rows);
      Copied(after, some) == after && Remap(after, some) == Remap(dest, some) && Imported(after, some) == 0
  {
    if some != [] {
      var n := |some| - 1;
      assert some[n] == rows[n];
      ReimportAddsNoMemory(dest, rows, some[..n]);
      KnownAfterwards(dest, rows, some[n]);
    }
  }

  // ----- what an import does to the edges

  /** Some source edge is mapped to this triple. */
  ghost predicate Brought(remap: map<Id, Id>, theirs: seq<SourceEdge>, link: Link) {
    exists e :: e in theirs && Resolves(remap, e.link) && SameTriple(Mapped(remap, e.link), link)
  }

  ghost predicate UnusedIds(edges: Edges, theirs: seq<SourceEdge>, newIds: seq<Id>) {
    && |newIds| == |theirs|
    && (forall k :: 0 <= k < |newIds| ==> newIds[k] !in edges)
    && (forall k, e :: 0 <= k < |newIds| && e in theirs ==> newIds[k] != e.id)
    && forall j, k :: 0 <= j < k < |newIds| ==> newIds[j] != newIds[k]
  }

  lemma FewerUnused(edges: Edges, theirs: seq<SourceEdge>, newIds: seq<Id>)
    requires theirs != [] && UnusedIds(edges, theirs, newIds)
    ensures UnusedIds(edges, theirs[..|theirs| - 1], newIds[..|newIds| - 1])
  {
    assert forall e :: e in theirs[..|theirs| - 1] ==> e in theirs;
  }

  /** Ids in use come from the destination, the source, or uuid4. */
  lemma {:induction false} IdsUsed(edges: Edges, remap: map<Id, Id>, theirs: seq<SourceEdge>, newIds: seq<Id>, id: Id)
    requires |newIds| == |theirs| && id in CopiedEdges(edges, remap, theirs, newIds)
    ensures id in edges || id in newIds || exists e :: e in theirs && e.id == id
  {
    if theirs != [] {
      var n := |theirs| - 1;
      if id in CopiedEdges(edges, remap, theirs[..n], newIds[..n]) {
        IdsUsed(edges, remap, theirs[..n], newIds[..n], id);
      } else {
        assert id == theirs[n].id || id == newIds[n];
      }
    }
  }

  /** The destination keeps its edges and gains exactly the mapped triples, each once. */
  lemma {:induction false} EdgesExactly(edges: Edges, remap: map<Id, Id>, theirs: seq<SourceEdge>, newIds: seq<Id>)
    requires UnusedIds(edges, theirs, newIds) && UniqueTriples(edges)
    ensures var after := CopiedEdges(edges, remap, theirs, newIds);
      && (forall i :: i in edges ==> i in after && after[i] == edges[i])
      && (forall link :: HasTriple(after, link) <==> HasTriple(edges, link) || Brought(remap, theirs, link))
      && UniqueTriples(after)
  {
    if theirs != [] {
      var n := |theirs| - 1;
      var e, before := theirs[n], CopiedEdges(edges, remap, theirs[..n], newIds[..n]);
      assert theirs == theirs[..n] + [e];
      FewerUnused(edges, theirs, newIds);
      EdgesExactly(edges, remap, theirs[..n], newIds[..n]);
      if Resolves(remap, e.link) {
        var id := if e.id in before then newIds[n] else e.id;
        if newIds[n] in before {
          IdsUsed(edges, remap, theirs[..n], newIds[..n], newIds[n]);
        }
        OneEdge(edges, before, remap, theirs[..n], e, id);
      } else {
        NoEdge(edges, before, remap, theirs[..n], e);
      }
    }
  }

  /** A new edge is a source edge with its ends mapped, properties included, under its own id or a new one. */
  lemma {:induction false} NewEdgesAreCopies(edges: Edges, remap: map<Id, Id>, theirs: seq<SourceEdge>, newIds: seq<Id>,
                                             id: Id)
    requires UnusedIds(edges, theirs, newIds) && id in CopiedEdges(edges, remap, theirs, newIds) && id !in edges
    ensures exists e :: e in theirs && Resolves(remap, e.link) && (id == e.id || id in newIds)
                        && CopiedEdges(edges, remap, theirs, newIds)[id] == Mapped(remap, e.link)
  {
    var n := |theirs| - 1;
    var before := CopiedEdges(edges, remap, theirs[..n], newIds[..n]);
    FewerUnused(edges, theirs, newIds);
    if id in before {
      NewEdgesAreCopies(edges, remap, theirs[..n], newIds[..n], id);
      NewIdUnused(edges, remap, theirs, newIds, n);
    } else {
      assert theirs[n] in theirs && newIds[n] in newIds;
    }
  }

  ghost predicate Exactly(edges: Edges, after: Edges, remap: map<Id, Id>, theirs: seq<SourceEdge>) {
    forall link :: HasTriple(after, link) <==> HasTriple(edges, link) || Brought(remap, theirs, link)
  }

  lemma NoEdge(edges: Edges, before: Edges, remap: map<Id, Id>, theirs: seq<SourceEdge>, e: SourceEdge)
    requires Exactly(edges, before, remap, theirs) && !Resolves(remap, e.link)
    ensures Exactly(edges, before, remap, theirs + [e])
  {
    forall link ensures Brought(remap, theirs + [e], link) <==> Brought(remap, theirs, link) {
      if Brought(remap, theirs, link) {
        var x :| x in theirs && Resolves(remap, x.link) && SameTriple(Mapped(remap, x.link), link);
        assert x in theirs + [e];
      }
    }
  }

  lemma OneEdge(edges: Edges, before: Edges, remap: map<Id, Id>, theirs: seq<SourceEdge>, e: SourceEdge, id: Id)
    requires Exactly(edges, before, remap, theirs) && Resolves(remap, e.link) && UniqueTriples(before) && id !in before
    ensures var after := if HasTriple(before, Mapped(remap, e.link)) then before
        else before[id := Mapped(remap, e.link)];
      Exactly(edges, after, remap, theirs + [e]) && UniqueTriples(after)
  {
    var m := Mapped(remap, e.link);
    var after := if HasTriple(before, m) then before else before[id := m];
    forall link ensures Brought(remap, theirs + [e], link) <==> Brought(remap, theirs, link) || SameTriple(m, link) {
      if Brought(remap, theirs, link) {
        var x :| x in theirs && Resolves(remap, x.link) && SameTriple(Mapped(remap, x.link), link);
        assert x in theirs + [e];
      }
      assert e in theirs + [e];
    }
    forall link ensures HasTriple(after, link) <==> HasTriple(before, link) || SameTriple(m, link) {
      if HasTriple(before, link) {
        var i :| i in before && SameTriple(before[i], link);
        assert i in after && SameTriple(after[i], link);
      }
      if SameTriple(m, link) {
        if HasTriple(before, m) {
          var i :| i in before && SameTriple(before[i], m);
          assert SameTriple(after[i], link);
        } else {
          assert SameTriple(after[id], link);
        }
      }
    }
  }

  /** Importing the same edges again adds none. */
  lemma {:induction false} ReimportAddsNoEdge(edges: Edges, remap: map<Id, Id>, theirs: seq<SourceEdge>,
                                              newIds: seq<Id>)
    requires |newIds| == |theirs|
    requires forall e :: e in theirs && Resolves(remap, e.link) ==> HasTriple(edges, Mapped(remap, e.link))
    ensures CopiedEdges(edges, remap, theirs, newIds) == edges
  {
    if theirs != [] {
      var n := |theirs| - 1;
      forall e | e in theirs[..n] ensures e in theirs {
      }
      ReimportAddsNoEdge(edges, remap, theirs[..n], newIds[..n]);
      assert theirs[n] in theirs;
    }
  }

  lemma {:induction false} ReimportAddsNoVector(dest: Memories, mine: map<Id, Vector>, theirs: map<Id, Vector>,
                                                rows: seq<Row>)
    requires forall r :: r in rows ==> !IsNew(dest, r)
    ensures CopiedVectors(dest, mine, theirs, rows) == mine && !Clash(dest, mine, theirs, rows)
  {
    if rows != [] {
      var n := |rows| - 1;
      forall r | r in rows[..n] ensures r in rows {
      }
      ReimportAddsNoVector(dest, mine, theirs, rows[..n]);
      assert rows[n] in rows;
    }
  }

  /** Importing the same source a second time succeeds, and changes nothing at all. */
  lemma ReimportChangesNothing(dest: Memories, rows: seq<Row>, mine: map<Id, Vector>, vectors: map<Id, Vector>,
                               edges: Edges, theirs: seq<SourceEdge>, newIds: seq<Id>, newerIds: seq<Id>)
    requires UniqueHashes(dest) && ValidSource(rows) && UniqueTriples(edges)
    requires UnusedIds(edges, theirs, newIds) && |newerIds| == |theirs|
    ensures var memories, mine' := Copied(dest, rows), CopiedVectors(dest, mine, vectors, rows);
      var links := CopiedEdges(edges, Remap(dest, rows), theirs, newIds);
      && !Clash(memories, mine', vectors, rows)
      && Copied(memories, rows) == memories && CopiedVectors(memories, mine', vectors, rows) == mine'
      && CopiedEdges(links, Remap(memories, rows), theirs, newerIds) == links
  {
    var remap := Remap(dest, rows);
    var links := CopiedEdges(edges, remap, theirs, newIds);
    ReimportAddsNoMemory(dest, rows, rows);
    forall r | r in rows ensures !IsNew(Copied(dest, rows), r) {
      KnownAfterwards(dest, rows, r);
    }
    ReimportAddsNoVector(Copied(dest, rows), CopiedVectors(dest, mine, vectors, rows), vectors, rows);
    EdgesExactly(edges, remap, theirs, newIds);
    forall e | e in theirs && Resolves(remap, e.link) ensures HasTriple(links, Mapped(remap, e.link)) {
      assert Brought(remap, theirs, Mapped(remap, e.link));
    }
    ReimportAddsNoEdge(links, remap, theirs, newerIds);
  }

  /** New edges end in memories of the destination. */
  lemma EdgesLand(dest: Memories, rows: seq<Row>, edges: Edges, theirs: seq<SourceEdge>, newIds: seq<Id>)
    requires UniqueHashes(dest) && ValidSource(rows) && UnusedIds(edges, theirs, newIds) && UniqueTriples(edges)
    requires forall i :: i in edges ==> edges[i].source in dest && edges[i].target in dest
    ensures var memories := Copied(dest, rows); var after := CopiedEdges(edges, Remap(dest, rows), theirs, newIds);
      forall i :: i in after ==> after[i].source in memories && after[i].target in memories
  {
    var remap := Remap(dest, rows);
    var memories, after := Copied(dest, rows), CopiedEdges(edges, remap, theirs, newIds);
    CopiedExactly(dest, rows);
    EdgesExactly(edges, remap, theirs, newIds);
    forall i | i in after ensures after[i].source in memories && after[i].target in memories {
      assert HasTriple(after, after[i]);
      if HasTriple(edges, after[i]) {
        var j :| j in edges && SameTriple(edges[j], after[i]);
      } else {
        var e :| e in theirs && Resolves(remap, e.link) && SameTriple(Mapped(remap, e.link), after[i]);
        RemapInto(dest, rows, e.link.source);
        RemapInto(dest, rows, e.link.target);
      }
    }
  }

  lemma RemapInto(dest: Memories, rows: seq<Row>, id: Id)
    requires UniqueHashes(dest) && ValidSource(rows) && id in Remap(dest, rows)
    ensures Remap(dest, rows)[id] in Copied(dest, rows)
  {
    RemapExactly(dest, rows);
    var r :| r in rows && r.id == id;
    RemapLands(dest, rows, r);
  }

  // ----- self-loops

  ghost predicate SelfLoop(edges: Edges) {
    exists i :: i in edges && edges[i].source == edges[i].target
  }

  /** b collides by id with the destination memory that has a's content. */
  ghost predicate Absorbs(dest: Memories, a: Row, b: Row) {
    Collides(dest, b) && dest[b.id].hash == a.memory.hash
  }

  /** Two source memories end up as one exactly when the one collides with the other's counterpart. */
  lemma MergedIff(dest: Memories, rows: seq<Row>, a: Row, b: Row)
    requires UniqueHashes(dest) && ValidSource(rows) && a in rows && b in rows && a != b
    ensures Target(dest, a) == Target(dest, b) <==> Absorbs(dest, a, b) || Absorbs(dest, b, a)
  {
    assert a.memory.hash != b.memory.hash && a.id != b.id;
    if Absorbs(dest, a, b) {
      assert HasHash(dest, a.memory.hash);
    }
    if Absorbs(dest, b, a) {
      assert HasHash(dest, b.memory.hash);
    }
  }

  /** A source edge that becomes a self-loop: it is one, or its two ends are merged. */
  ghost predicate Collapses(dest: Memories, rows: seq<Row>, link: Link) {
    exists a, b :: a in rows && b in rows && a.id == link.source && b.id == link.target
      && (a == b || Absorbs(dest, a, b) || Absorbs(dest, b, a))
  }

  /**
    link() refuses self-loops, but an import can bring them: exactly when an edge of the source
    is one or joins two memories of which one collides with the other's counterpart.
   */
  lemma SelfLoopIff(dest: Memories, rows: seq<Row>, edges: Edges, theirs: seq<SourceEdge>, newIds: seq<Id>)
    requires UniqueHashes(dest) && ValidSource(rows) && UnusedIds(edges, theirs, newIds) && UniqueTriples(edges)
    requires !SelfLoop(edges)
    ensures SelfLoop(CopiedEdges(edges, Remap(dest, rows), theirs, newIds))
        <==> exists e :: e in theirs && Collapses(dest, rows, e.link)
  {
    var remap := Remap(dest, rows);
    var after := CopiedEdges(edges, remap, theirs, newIds);
    EdgesExactly(edges, remap, theirs, newIds);
    if SelfLoop(after) {
      var i :| i in after && after[i].source == after[i].target;
      assert HasTriple(after, after[i]) && !HasTriple(edges, after[i]);
      var e :| e in theirs && Resolves(remap, e.link) && SameTriple(Mapped(remap, e.link), after[i]);
      LoopCollapses(dest, rows, e.link);
    }
    if e :| e in theirs && Collapses(dest, rows, e.link) {
      CollapsedLoops(dest, rows, e.link);
      var m := Mapped(remap, e.link);
      assert Brought(remap, theirs, m) && HasTriple(after, m);
      var i :| i in after && SameTriple(after[i], m);
    }
  }

  lemma LoopCollapses(dest: Memories, rows: seq<Row>, link: Link)
    requires UniqueHashes(dest) && ValidSource(rows)
    requires var remap := Remap(dest, rows); Resolves(remap, link) && remap[link.source] == remap[link.target]
    ensures Collapses(dest, rows, link)
  {
    RemapExactly(dest, rows);
    var a :| a in rows && a.id == link.source;
    var b :| b in rows && b.id == link.target;
    if a != b {
      MergedIff(dest, rows, a, b);
    }
  }

  lemma CollapsedLoops(dest: Memories, rows: seq<Row>, link: Link)
    requires UniqueHashes(dest) && ValidSource(rows) && Collapses(dest, rows, link)
    ensures var remap := Remap(dest, rows); Resolves(remap, link) && remap[link.source] == remap[link.target]
  {
    RemapExactly(dest, rows);
    var a, b :| a in rows && b in rows && a.id == link.source && b.id == link.target
      && (a == b || Absorbs(dest, a, b) || Absorbs(dest, b, a));
    if a != b {
      MergedIff(dest, rows, a, b);
    }
  }

  /**
    An edge from a to b, where the destination has a's content under b's id: a is found by its hash and b by its id,
    in the same memory, and the edge becomes a self-loop.
   */
  lemma MergedEndsLoop(a: Row, b: Row, edge: SourceEdge, newId: Id) returns (dest: Memories)
    requires a.id != b.id && a.memory.hash != b.memory.hash && newId != edge.id
    requires edge.link.source == a.id && edge.link.target == b.id
    ensures dest == map[b.id := a.memory] && UniqueHashes(dest) && ValidSource([a, b])
    ensures UnusedIds(map[], [edge], [newId])
    ensures SelfLoop(CopiedEdges(map[], Remap(dest, [a, b]), [edge], [newId]))
  {
    dest := map[b.id := a.memory];
    var rows, theirs := [a, b], [edge];
    assert a in rows && b in rows && Absorbs(dest, a, b);
    assert edge in theirs && Collapses(dest, rows, edge.link);
    SelfLoopIff(dest, rows, map[], theirs, [newId]);
  }

  // ----- the importer

  class Destination {
    var memories: Memories
    var vectors: map<Id, Vector>
    var edges: Edges

    /** Copies memories and vectors; false if a vector insert fails. */
    method CopyMemories(rows: seq<Row>, theirVectors: map<Id, Vector>)
      returns (ok: bool, imported: nat, skipped: nat, remap: map<Id, Id>)
      requires UniqueHashes(memories) && ValidSource(rows)
      modifies this`memories, this`vectors
      ensures ok <==> !Clash(old(memories), old(vectors), theirVectors, rows)
      ensures ok ==> memories == Copied(old(memories), rows) && remap == Remap(old(memories), rows)
      ensures ok ==> vectors == CopiedVectors(old(memories), old(vectors), theirVectors, rows)
      ensures ok ==> imported == Imported(old(memories), rows) && imported + skipped == |rows|
    {
      imported, skipped, remap := 0, 0, map[];
      ok := true;
      ghost var dest, mine := memories, vectors;
      for k := 0 to |rows|
        invariant memories == Copied(dest, rows[..k]) && remap == Remap(dest, rows[..k])
        invariant vectors == CopiedVectors(dest, mine, theirVectors, rows[..k])
        invariant imported == Imported(dest, rows[..k]) && imported + skipped == k
        invariant !Clash(dest, mine, theirVectors, rows[..k])
      {
        RowStep(dest, mine, theirVectors, rows, k);
        var copied, id := CopyMemory(rows[k], dest);
        remap := remap[rows[k].id := id];
        if copied {
          imported := imported + 1;
          ok := CopyVector(rows[k], theirVectors);
          if !ok {
            return;
          }
        } else {
          skipped := skipped + 1;
        }
      }
      assert rows[..|rows|] == rows;
    }

    /** Copies one row unless its content or its id is known; the id of its counterpart. */
    method CopyMemory(row: Row, ghost dest: Memories) returns (copied: bool, id: Id)
      requires UniqueHashes(dest)
      requires forall i ::
        i in memories && memories[i].hash == row.memory.hash ==> i in dest && dest[i].hash == memories[i].hash
      requires HasHash(memories, row.memory.hash) <==> HasHash(dest, row.memory.hash)
      requires row.id in memories <==> row.id in dest
      modifies this`memories
      ensures copied <==> IsNew(dest, row)
      ensures id == Target(dest, row)
      ensures memories == if copied then old(memories)[row.id := row.memory] else old(memories)
    {
      if byHash :| byHash in memories && memories[byHash].hash == row.memory.hash {
        assert HasHash(dest, row.memory.hash);
        return false, byHash;
      }
      if row.id in memories {
        return false, row.id;
      }
      memories := memories[row.id := row.memory];
      return true, row.id;
    }

    /** Copies the vector of a new memory; false if a leftover vector is in the way. */
    method CopyVector(row: Row, theirVectors: map<Id, Vector>) returns (ok: bool)
      modifies this`vectors
      ensures ok <==> !(row.memory.embedded && row.id in theirVectors && row.id in old(vectors))
      ensures ok ==>
        vectors == (if row.memory.embedded && row.id in theirVectors then old(vectors)[row.id := theirVectors[row.id]]
            else old(vectors))
    {
      if row.memory.embedded && row.id in theirVectors {
        if row.id in vectors {
          return false;
        }
        vectors := vectors[row.id := theirVectors[row.id]];
      }
      return true;
    }

    method CopyEdges(theirs: seq<SourceEdge>, remap: map<Id, Id>, newIds: seq<Id>) returns (copied: nat)
      requires UnusedIds(edges, theirs, newIds)
      modifies this`edges
      ensures edges == CopiedEdges(old(edges), remap, theirs, newIds) && |edges| == |old(edges)| + copied
    {
      copied := 0;
      ghost var mine := edges;
      for k := 0 to |theirs|
        invariant edges == CopiedEdges(mine, remap, theirs[..k], newIds[..k]) && |edges| == |mine| + copied
      {
        var e := theirs[k];
        assert theirs[..k + 1][..k] == theirs[..k] && newIds[..k + 1][..k] == newIds[..k];
        if !Resolves(remap, e.link) {
          continue;
        }
        var link := Mapped(remap, e.link);
        if HasTriple(edges, link) {
          continue;
        }
        var id := e.id;
        if id in edges {
          id := newIds[k];
          NewIdUnused(mine, remap, theirs, newIds, k);
        }
        assert edges[id := link].Keys == edges.Keys + {id};
        edges := edges[id := link];
        copied := copied + 1;
      }
      assert theirs[..|theirs|] == theirs && newIds[..|theirs|] == newIds;
    }

    /** The whole transaction: all of it, or, when it fails, nothing. */
    method Import(rows: seq<Row>, theirVectors: map<Id, Vector>, theirs: seq<SourceEdge>, newIds: seq<Id>)
      returns (result: Option<Counts>)
      requires UniqueHashes(memories) && UniqueTriples(edges) && ValidSource(rows) && UnusedIds(edges, theirs, newIds)
      modifies this
      ensures result.None? <==> Clash(old(memories), old(vectors), theirVectors, rows)
      ensures result.None? ==> memories == old(memories) && vectors == old(vectors) && edges == old(edges)
      ensures result.Some? ==>
        && memories == Copied(old(memories), rows)
        && vectors == CopiedVectors(old(memories), old(vectors), theirVectors, rows)
        && edges == CopiedEdges(old(edges), Remap(old(memories), rows), theirs, newIds)
        && |memories| == |old(memories)| + result.value.imported
        && |edges| == |old(edges)| + result.value.edges
        && result.value.imported + result.value.skipped == |rows|
      ensures UniqueHashes(memories) && UniqueTriples(edges)
    {
      var memories0, vectors0, edges0 := memories, vectors, edges;
      ImportKeepsMemories(memories, rows);
      ImportedCounts(memories, rows);
      var ok, imported, skipped, remap := CopyMemories(rows, theirVectors);
      if !ok {
        memories, vectors, edges := memories0, vectors0, edges0;
        return None;
      }
      EdgesExactly(edges, remap, theirs, newIds);
      var copied := CopyEdges(theirs, remap, newIds);
      return Some(Counts(imported, skipped, copied));
    }
  }

  datatype Counts = Counts(imported: nat, skipped: nat, edges: nat)

  lemma NewIdUnused(edges: Edges, remap: map<Id, Id>, theirs: seq<SourceEdge>, newIds: seq<Id>, k: nat)
    requires UnusedIds(edges, theirs, newIds) && k < |newIds|
    ensures newIds[k] !in CopiedEdges(edges, remap, theirs[..k], newIds[..k])
  {
    if newIds[k] in CopiedEdges(edges, remap, theirs[..k], newIds[..k]) {
      IdsUsed(edges, remap, theirs[..k], newIds[..k], newIds[k]);
    }
  }

  /** What one turn of the loop needs to know. */
  lemma RowStep(dest: Memories, mine: map<Id, Vector>, theirs: map<Id, Vector>, rows: seq<Row>, k: nat)
    requires UniqueHashes(dest) && ValidSource(rows) && k < |rows|
    ensures rows[..k + 1][..k] == rows[..k] && rows[..k + 1][k] == rows[k]
    ensures var now := Copied(dest, rows[..k]);
      && (forall i :: i in now && now[i].hash == rows[k].memory.hash ==> i in dest && dest[i].hash == now[i].hash)
      && (HasHash(now, rows[k].memory.hash) <==> HasHash(dest, rows[k].memory.hash))
      && (rows[k].id in now <==> rows[k].id in dest)
      && (rows[k].id in CopiedVectors(dest, mine, theirs, rows[..k]) <==> rows[k].id in mine)
    ensures Clash(dest, mine, theirs, rows[..k + 1])
       <==> Clash(dest, mine, theirs, rows[..k]) || (BringsVector(dest, theirs, rows[k]) && rows[k].id in mine)
    ensures Clash(dest, mine, theirs, rows[..k + 1]) ==> Clash(dest, mine, theirs, rows)
  {
    FoundFromTheStart(dest, rows[..k], rows[k]);
    VectorsFrom(dest, mine, theirs, rows[..k], rows[k].id);
    assert rows[..k + 1] == rows[..k] + [rows[k]];
  }
}
