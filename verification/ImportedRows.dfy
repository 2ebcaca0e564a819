/** What the tables hold after an import, row by row. */
module ImportedRows {
  import opened HubImport
  import opened Ids

  /** The destination has neither the id nor the content. */
  ghost predicate Unknown(dest: Memories, r: Row) {
    r.id !in dest && forall i :: i in dest ==> dest[i].hash != r.memory.hash
  }

  lemma UnknownIsNew(dest: Memories, r: Row)
    ensures Unknown(dest, r) <==> IsNew(dest, r)
  {
  }

  ghost predicate Gained(dest: Memories, rows: seq<Row>, id: Id, m: Memory) {
    exists r :: r in rows && Unknown(dest, r) && r.id == id && r.memory == m
  }

  /** A memory is there afterwards exactly if it was before or is that of a source row unknown before. */
  lemma MemoriesAfter(dest: Memories, rows: seq<Row>, id: Id, m: Memory)
    requires ValidSource(rows)
    ensures var after := Copied(dest, rows);
      id in after && after[id] == m <==> (id in dest && dest[id] == m) || Gained(dest, rows, id, m)
  {
    CopiedExactly(dest, rows);
    forall r | r in rows ensures Unknown(dest, r) <==> IsNew(dest, r) {
      UnknownIsNew(dest, r);
    }
    if id in Copied(dest, rows) && id !in dest {
      assert NewRow(dest, rows, id);
    }
  }

  /** A source memory stands for the one of the same content if there is one, and else for the one of its own id. */
  lemma StandsFor(dest: Memories, rows: seq<Row>, r: Row)
    requires UniqueHashes(dest) && ValidSource(rows) && r in rows
    ensures var remap := Remap(dest, rows);
      && r.id in remap
      && (forall i :: i in dest && dest[i].hash == r.memory.hash ==> remap[r.id] == i)
      && ((forall i :: i in dest ==> dest[i].hash != r.memory.hash) ==> remap[r.id] == r.id)
  {
    RemapExactly(dest, rows);
  }

  // ----- vectors

  /** A source row that is new, embedded and has a vector. */
  ghost predicate Brings(dest: Memories, theirs: map<Id, Vector>, r: Row, id: Id) {
    r.id == id && Unknown(dest, r) && r.memory.embedded && id in theirs
  }

  /** The vectors are those of the new embedded memories and for the rest those the destination had. */
  lemma {:induction false} VectorsAfter(dest: Memories, mine: map<Id, Vector>, theirs: map<Id, Vector>, rows: seq<Row>,
                                        id: Id)
    ensures var after := CopiedVectors(dest, mine, theirs, rows);
      if exists r :: r in rows && Brings(dest, theirs, r, id) then id in after && after[id] == theirs[id]
      else (id in after <==> id in mine) && (id in mine ==> after[id] == mine[id])
  {
    if rows != [] {
      var n := |rows| - 1;
      VectorsAfter(dest, mine, theirs, rows[..n], id);
      UnknownIsNew(dest, rows[n]);
      assert rows == rows[..n] + [rows[n]];
      assert Brings(dest, theirs, rows[n], id) <==> BringsVector(dest, theirs, rows[n]) && rows[n].id == id;
    }
  }

  // ----- edges

  /** The edge joins memories that both stand for something in the destination, which become its ends. */
  ghost predicate Becomes(remap: map<Id, Id>, link: Link, source: Id, target: Id) {
    && link.source in remap && remap[link.source] == source
    && link.target in remap && remap[link.target] == target
  }

  ghost predicate Joins(link: Link, source: Id, target: Id, relation: string) {
    link.source == source && link.target == target && link.relation == relation
  }

  /** The k-th source edge is the first to bring a triple that no edge of the destination has. */
  ghost predicate Adds(edges: Edges, remap: map<Id, Id>, theirs: seq<SourceEdge>, k: int, source: Id, target: Id) {
    && 0 <= k < |theirs| && Becomes(remap, theirs[k].link, source, target)
    && (forall i :: i in edges ==> !Joins(edges[i], source, target, theirs[k].link.relation))
    && forall j :: 0 <= j < k && theirs[j].link.relation == theirs[k].link.relation ==>
         !Becomes(remap, theirs[j].link, source, target)
  }

  /** An added edge keeps its id unless an edge of the destination has that. */
  ghost predicate HasIdOf(edges: Edges, theirs: seq<SourceEdge>, newIds: seq<Id>, k: int, id: Id) {
    0 <= k < |theirs| && k < |newIds| && id == if theirs[k].id in edges then newIds[k] else theirs[k].id
  }

  ghost predicate AddedAs(edges: Edges, remap: map<Id, Id>, theirs: seq<SourceEdge>, newIds: seq<Id>, k: int, id: Id,
                          link: Link) {
    && Adds(edges, remap, theirs, k, link.source, link.target) && HasIdOf(edges, theirs, newIds, k, id)
    && link.relation == theirs[k].link.relation && link.properties == theirs[k].link.properties
  }

  ghost predicate DistinctIds(theirs: seq<SourceEdge>) {
    forall j, k :: 0 <= j < k < |theirs| ==> theirs[j].id != theirs[k].id
  }

  lemma AddsIff(edges: Edges, remap: map<Id, Id>, theirs: seq<SourceEdge>, newIds: seq<Id>, link: Link)
    requires theirs != [] && UnusedIds(edges, theirs, newIds) && UniqueTriples(edges)
    requires Resolves(remap, theirs[|theirs| - 1].link) && link == Mapped(remap, theirs[|theirs| - 1].link)
    ensures var n := |theirs| - 1;
      HasTriple(CopiedEdges(edges, remap, theirs[..n], newIds[..n]), link)
      <==> !Adds(edges, remap, theirs, n, link.source, link.target)
  {
    var n := |theirs| - 1;
    FewerUnused(edges, theirs, newIds);
    EdgesExactly(edges, remap, theirs[..n], newIds[..n]);
    if Brought(remap, theirs[..n], link) {
      var e :| e in theirs[..n] && Resolves(remap, e.link) && SameTriple(Mapped(remap, e.link), link);
      var j :| 0 <= j < n && theirs[..n][j] == e;
      assert theirs[j] == e && Becomes(remap, theirs[j].link, link.source, link.target);
    }
    if !Adds(edges, remap, theirs, n, link.source, link.target) && !HasTriple(edges, link) {
      BroughtBefore(edges, remap, theirs, n, link);
    }
  }

  lemma BroughtBefore(edges: Edges, remap: map<Id, Id>, theirs: seq<SourceEdge>, n: nat, link: Link)
    requires n < |theirs| && Resolves(remap, theirs[n].link) && link == Mapped(remap, theirs[n].link)
    requires !Adds(edges, remap, theirs, n, link.source, link.target) && !HasTriple(edges, link)
    ensures Brought(remap, theirs[..n], link)
  {
    forall i | i in edges ensures !Joins(edges[i], link.source, link.target, theirs[n].link.relation) {
      assert !SameTriple(edges[i], link);
    }
    var j :| 0 <= j < n && theirs[j].link.relation == theirs[n].link.relation
             && Becomes(remap, theirs[j].link, link.source, link.target);
    assert theirs[j] in theirs[..n] by {
      assert theirs[..n][j] == theirs[j];
    }
    assert SameTriple(Mapped(remap, theirs[j].link), link);
  }

  /** An edge is there afterwards exactly if it was before or was added in this way, ends mapped and the rest copied. */
  lemma {:induction false} EdgesAfter(edges: Edges, remap: map<Id, Id>, theirs: seq<SourceEdge>, newIds: seq<Id>,
                                      id: Id, link: Link)
    requires UnusedIds(edges, theirs, newIds) && UniqueTriples(edges) && DistinctIds(theirs)
    ensures var after := CopiedEdges(edges, remap, theirs, newIds);
      id in after && after[id] == link
      <==> (id in edges && edges[id] == link) || exists k :: AddedAs(edges, remap, theirs, newIds, k, id, link)
  {
    if theirs != [] {
      var n := |theirs| - 1;
      FewerUnused(edges, theirs, newIds);
      EdgesAfter(edges, remap, theirs[..n], newIds[..n], id, link);
      EarlierOrLast(edges, remap, theirs, newIds, n, id, link);
      if Resolves(remap, theirs[n].link) {
        AddsIff(edges, remap, theirs, newIds, Mapped(remap, theirs[n].link));
        LastId(edges, remap, theirs, newIds, n);
      }
    }
  }

  lemma EarlierOrLast(edges: Edges, remap: map<Id, Id>, theirs: seq<SourceEdge>, newIds: seq<Id>, n: nat, id: Id,
                      link: Link)
    requires |theirs| == n + 1 == |newIds|
    ensures (exists k :: AddedAs(edges, remap, theirs, newIds, k, id, link))
       <==> || (exists k :: AddedAs(edges, remap, theirs[..n], newIds[..n], k, id, link))
            || AddedAs(edges, remap, theirs, newIds, n, id, link)
  {
    forall k | 0 <= k < n
      ensures AddedAs(edges, remap, theirs[..n], newIds[..n], k, id, link)
         <==> AddedAs(edges, remap, theirs, newIds, k, id, link)
    {
      SameBefore(edges, remap, theirs, n, k, link);
    }
    if k :| AddedAs(edges, remap, theirs, newIds, k, id, link) {
      assert k < n ==> AddedAs(edges, remap, theirs[..n], newIds[..n], k, id, link);
    }
  }

  lemma SameBefore(edges: Edges, remap: map<Id, Id>, theirs: seq<SourceEdge>, n: nat, k: nat, link: Link)
    requires k < n <= |theirs|
    ensures Adds(edges, remap, theirs[..n], k, link.source, link.target)
       <==> Adds(edges, remap, theirs, k, link.source, link.target)
  {
    forall j | 0 <= j < n ensures theirs[..n][j] == theirs[j] {
    }
  }

  /** The id an edge gets is free, and its own id is taken only by an edge of the destination. */
  lemma LastId(edges: Edges, remap: map<Id, Id>, theirs: seq<SourceEdge>, newIds: seq<Id>, n: nat)
    requires |theirs| == n + 1 && UnusedIds(edges, theirs, newIds) && UniqueTriples(edges) && DistinctIds(theirs)
    ensures var before := CopiedEdges(edges, remap, theirs[..n], newIds[..n]);
      && (theirs[n].id in before <==> theirs[n].id in edges)
      && newIds[n] !in before
  {
    FewerUnused(edges, theirs, newIds);
    EdgesExactly(edges, remap, theirs[..n], newIds[..n]);
    NewIdUnused(edges, remap, theirs, newIds, n);
    var before := CopiedEdges(edges, remap, theirs[..n], newIds[..n]);
    assert theirs[n] in theirs;
    if theirs[n].id in before && theirs[n].id !in edges {
      IdsUsed(edges, remap, theirs[..n], newIds[..n], theirs[n].id);
    }
  }
}
