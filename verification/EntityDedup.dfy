/**
  Merging duplicate entities: a pass over all pairs of a type links the later name to the earlier one
  when the names are close and the judge says they are the same.
 */
module EntityDedup {
  import Graphs
  import opened Ids
  import opened Wrappers

  type Kind(==, !new)

  datatype Entity = Entity(name: string, kind: Kind, canonical: Option<Id>, mentions: nat)

  type Entities = map<Id, Entity>

  // ----- the order of names

  /** Names in the order of their code points, which is the order of their UTF-8 bytes. */
  predicate Less(a: string, b: string) {
    b != "" && (a == "" || a[0] < b[0] || (a[0] == b[0] && Less(a[1..], b[1..])))
  }

  lemma {:induction false} LessTransitive(a: string, b: string, c: string)
    requires Less(a, b) && Less(b, c)
    ensures Less(a, c)
  {
    if a != "" && a[0] == b[0] == c[0] {
      LessTransitive(a[1..], b[1..], c[1..]);
    }
  }

  lemma {:induction false} LessIrreflexive(a: string)
    ensures !Less(a, a)
  {
    if a != "" {
      LessIrreflexive(a[1..]);
    }
  }

  // ----- the forest

  /** A link leads to an entity of the same type whose name comes earlier. */
  ghost predicate LinkRight(db: Entities, id: Id)
    requires id in db
  {
    var link := db[id].canonical;
    link.Some? ==> link.value in db && db[link.value].kind == db[id].kind && Less(db[link.value].name, db[id].name)
  }

  ghost predicate Forest(db: Entities) {
    forall id :: id in db ==> LinkRight(db, id)
  }

  /** The entities whose names come before this one's. */
  ghost function Before(db: Entities, id: Id): set<Id>
    requires id in db
  {
    set i | i in db && Less(db[i].name, db[id].name)
  }

  lemma LinkDescends(db: Entities, id: Id)
    requires Forest(db) && id in db && db[id].canonical.Some?
    ensures db[id].canonical.value in db && |Before(db, db[id].canonical.value)| < |Before(db, id)|
  {
    assert LinkRight(db, id);
    var c := db[id].canonical.value;
    forall i | i in Before(db, c) ensures i in Before(db, id) {
      LessTransitive(db[i].name, db[c].name, db[id].name);
    }
    LessIrreflexive(db[c].name);
    assert c in Before(db, id) && c !in Before(db, c);
    Smaller(Before(db, c), Before(db, id), c);
  }

  lemma Smaller(a: set<Id>, b: set<Id>, x: Id)
    requires a <= b && x in b && x !in a
    ensures |a| < |b|
  {
    assert a <= b - {x};
    Graphs.SubsetSize(a, b - {x});
  }

  /** The end of the chain of links from an entity. */
  ghost function Root(db: Entities, id: Id): (r: Id)
    requires Forest(db) && id in db
    ensures r in db && db[r].canonical.None? && db[r].kind == db[id].kind
    decreases |Before(db, id)|
  {
    if db[id].canonical.None? then id
    else
      assert LinkRight(db, id);
      LinkDescends(db, id);
      Root(db, db[id].canonical.value)
  }

  /** What readers use for an entity: its link, or itself. */
  function Canonical(db: Entities, id: Id): Id
    requires id in db
  {
    if db[id].canonical.Some? then db[id].canonical.value else id
  }

  /** Readers follow one link only: they get the root unless the linked entity is itself linked. */
  lemma CanonicalIsRootIff(db: Entities, id: Id)
    requires Forest(db) && id in db
    ensures Canonical(db, id) in db
    ensures Canonical(db, id) == Root(db, id) <==> db[Canonical(db, id)].canonical.None?
  {
    assert LinkRight(db, id);
  }

  // ----- one group of candidates

  datatype Answer = Same | Different | Raised

  /** How a pass decides: which names are close, whether the judge is asked, and what it answers. */
  datatype Judge = Judge(close: (Id, Id) -> bool, llmConfirm: bool, answer: (Id, Id) -> Answer) {
    predicate Confirms(a: Id, b: Id) { close(a, b) && llmConfirm && answer(a, b) == Same }

    predicate Fails(a: Id, b: Id) { close(a, b) && llmConfirm && answer(a, b) == Raised }
  }

  /** Candidates of one type in the order of their names. */
  ghost predicate Group(db: Entities, g: seq<Id>) {
    && (forall i :: 0 <= i < |g| ==> g[i] in db)
    && (forall i, j {:trigger Earlier(db, g[i], g[j])} :: 0 <= i < j < |g| ==> Earlier(db, g[i], g[j]))
  }

  ghost predicate Earlier(db: Entities, a: Id, b: Id) {
    a in db && b in db && a != b && db[a].kind == db[b].kind && Less(db[a].name, db[b].name)
  }

  /** The last of the first n candidates that was confirmed to be g[t], if any. */
  function LastKept(judge: Judge, g: seq<Id>, t: nat, n: nat): Option<Id>
    requires n <= t < |g|
  {
    if n == 0 then None
    else if judge.Confirms(g[n - 1], g[t]) then Some(g[n - 1])
    else LastKept(judge, g, t, n - 1)
  }

  lemma {:induction false} LastKeptExact(judge: Judge, g: seq<Id>, t: nat, n: nat) returns (i: nat)
    requires n <= t < |g|
    ensures var r := LastKept(judge, g, t, n);
      && (r.Some? ==>
         && i < n && g[i] == r.value && judge.Confirms(g[i], g[t])
         && forall k :: i < k < n ==> !judge.Confirms(g[k], g[t]))
      && (r.None? <==> forall k :: 0 <= k < n ==> !judge.Confirms(g[k], g[t]))
  {
    if n == 0 || judge.Confirms(g[n - 1], g[t]) {
      i := if n == 0 then 0 else n - 1;
    } else {
      i := LastKeptExact(judge, g, t, n - 1);
    }
  }

  /** The link of g[t] once the first n candidates have been compared with it. */
  function LinkAfter(db: Entities, judge: Judge, g: seq<Id>, t: nat, n: nat): Option<Id>
    requires n <= t < |g| && g[t] in db
  {
    var kept := LastKept(judge, g, t, n);
    if kept.Some? then kept else db[g[t]].canonical
  }

  /** How many candidates g[t] has been compared with when the loops stand at (i, j). */
  function Compared(i: nat, j: nat, t: nat): (n: nat)
    ensures n <= t
  {
    if t <= i then t else if t < j then i + 1 else i
  }

  /** The table when the loops over g stand at (i, j). */
  ghost predicate At(db0: Entities, db: Entities, judge: Judge, g: seq<Id>, i: nat, j: nat) {
    && db.Keys == db0.Keys
    && (forall id :: id in db0 && id !in g ==> db[id] == db0[id])
    && (forall t: nat {:trigger Linked(db0, db, judge, g, i, j, t)} :: t < |g| ==> Linked(db0, db, judge, g, i, j, t))
  }

  ghost predicate Linked(db0: Entities, db: Entities, judge: Judge, g: seq<Id>, i: nat, j: nat, t: nat) {
    t < |g| && g[t] in db0 && g[t] in db
        && db[g[t]] == db0[g[t]].(canonical := LinkAfter(db0, judge, g, t, Compared(i, j, t)))
  }

  datatype Counts = Counts(considered: nat, confirmed: nat, merged: nat)

  function Add(a: Counts, b: Counts): Counts {
    Counts(a.considered + b.considered, a.confirmed + b.confirmed, a.merged + b.merged)
  }

  /** What one pair adds.  Without the judge, every close pair counts as confirmed and none is merged. */
  function Tally(judge: Judge, a: Id, b: Id): Counts {
    if !judge.close(a, b) then Counts(0, 0, 0)
    else if !judge.llmConfirm then Counts(1, 1, 0)
    else if judge.answer(a, b) == Same then Counts(1, 1, 1)
    else Counts(1, 0, 0)
  }

  /** The pairs (i, t) with i < t < n. */
  function TallyRow(judge: Judge, g: seq<Id>, i: nat, n: nat): Counts
    requires i < n <= |g|
  {
    if n == i + 1 then Counts(0, 0, 0)
    else Add(TallyRow(judge, g, i, n - 1), Tally(judge, g[i], g[n - 1]))
  }

  /** The pairs whose first is one of the first n. */
  function TallyRows(judge: Judge, g: seq<Id>, n: nat): Counts
    requires n <= |g|
  {
    if n == 0 then Counts(0, 0, 0)
    else Add(TallyRows(judge, g, n - 1), TallyRow(judge, g, n - 1, |g|))
  }

  lemma TallyOnePair(judge: Judge, g: seq<Id>, i: nat, j: nat, counts0: Counts, counts: Counts)
    requires i < j < |g| && counts == Add(counts0, TallyRow(judge, g, i, j))
    ensures Add(counts, Tally(judge, g[i], g[j])) == Add(counts0, TallyRow(judge, g, i, j + 1))
  {
  }

  ghost predicate Bounded(c: Counts, pairs: int) {
    c.merged <= c.confirmed <= c.considered <= pairs
  }

  lemma {:induction false} RowBounded(judge: Judge, g: seq<Id>, i: nat, n: nat)
    requires i < n <= |g|
    ensures Bounded(TallyRow(judge, g, i, n), n - i - 1)
  {
    if n > i + 1 {
      RowBounded(judge, g, i, n - 1);
    }
  }

  /** n times (2m - n - 1) / 2 pairs have one of the first n of m as their first. */
  lemma {:induction false} RowsBounded(judge: Judge, g: seq<Id>, n: nat)
    requires n <= |g|
    ensures var c := TallyRows(judge, g, n);
      c.merged <= c.confirmed <= c.considered && 2 * c.considered <= n * (2 * |g| - n - 1)
  {
    if n > 0 {
      RowsBounded(judge, g, n - 1);
      RowBounded(judge, g, n - 1, |g|);
      assert n * (2 * |g| - n - 1) == (n - 1) * (2 * |g| - (n - 1) - 1) + 2 * (|g| - n);
    }
  }

  function Pairs(n: nat): nat { n * (n - 1) / 2 }

  lemma GroupBounded(judge: Judge, g: seq<Id>)
    ensures Bounded(TallyRows(judge, g, |g|), Pairs(|g|))
  {
    RowsBounded(judge, g, |g|);
    var n := |g|;
    assert n * (2 * n - n - 1) == n * (n - 1);
  }

  // ----- one step of the loops

  lemma AtStart(db: Entities, judge: Judge, g: seq<Id>)
    requires Group(db, g)
    ensures At(db, db, judge, g, 0, 1)
  {
    forall t: nat | t < |g| ensures Linked(db, db, judge, g, 0, 1, t) {
      assert Compared(0, 1, t) == 0;
    }
  }

  lemma AtNextRow(db0: Entities, db: Entities, judge: Judge, g: seq<Id>, i: nat)
    requires i < |g| && At(db0, db, judge, g, i, |g|)
    ensures At(db0, db, judge, g, i + 1, i + 2)
  {
    var i', j' := i + 1, i + 2;
    forall t: nat | t < |g| ensures Linked(db0, db, judge, g, i', j', t) {
      assert Linked(db0, db, judge, g, i, |g|, t);
      assert Compared(i, |g|, t) == Compared(i + 1, i + 2, t);
    }
  }

  /** The table after the pair (i, j) has been looked at. */
  function AfterPair(db: Entities, judge: Judge, g: seq<Id>, i: nat, j: nat): Entities
    requires i < |g| && j < |g| && g[j] in db
  {
    if judge.Confirms(g[i], g[j]) then Link(db, g[i], g[j]) else db
  }

  function Link(db: Entities, kept: Id, merged: Id): Entities
    requires merged in db
  {
    db[merged := db[merged].(canonical := Some(kept))]
  }

  lemma AtNextPair(db0: Entities, db: Entities, judge: Judge, g: seq<Id>, i: nat, j: nat)
    requires i < j < |g| && Group(db0, g) && At(db0, db, judge, g, i, j)
    ensures g[j] in db && At(db0, AfterPair(db, judge, g, i, j), judge, g, i, j + 1)
  {
    assert Linked(db0, db, judge, g, i, j, j);
    var db' := AfterPair(db, judge, g, i, j);
    assert db'.Keys == db0.Keys;
    var j' := j + 1;
    forall t: nat | t < |g| ensures Linked(db0, db', judge, g, i, j', t) {
      assert Linked(db0, db, judge, g, i, j, t);
      LinkedNextPair(db0, db, judge, g, i, j, t);
    }
  }

  lemma LinkedNextPair(db0: Entities, db: Entities, judge: Judge, g: seq<Id>, i: nat, j: nat, t: nat)
    requires i < j < |g| && t < |g| && Group(db0, g) && g[j] in db && Linked(db0, db, judge, g, i, j, t)
    ensures Linked(db0, AfterPair(db, judge, g, i, j), judge, g, i, j + 1, t)
  {
    if t == j {
      assert Compared(i, j, j) == i && Compared(i, j + 1, j) == i + 1;
    } else {
      assert Compared(i, j, t) == Compared(i, j + 1, t);
      assert t < j ==> Earlier(db0, g[t], g[j]);
      assert t > j ==> Earlier(db0, g[j], g[t]);
    }
  }

  /** Wherever the loops stand, the links form a forest. */
  lemma AtKeepsForest(db0: Entities, db: Entities, judge: Judge, g: seq<Id>, i: nat, j: nat)
    requires Forest(db0) && Group(db0, g) && At(db0, db, judge, g, i, j)
    ensures Forest(db) && SameNames(db0, db)
  {
    AtKeepsNames(db0, db, judge, g, i, j);
    forall id | id in db ensures LinkRight(db, id) {
      assert LinkRight(db0, id);
      if id in g {
        var t :| 0 <= t < |g| && g[t] == id;
        assert Linked(db0, db, judge, g, i, j, t);
        var kept := LastKept(judge, g, t, Compared(i, j, t));
        if kept.Some? {
          var k := LastKeptExact(judge, g, t, Compared(i, j, t));
          assert Earlier(db0, g[k], g[t]);
        }
      }
    }
  }

  lemma AtKeepsNames(db0: Entities, db: Entities, judge: Judge, g: seq<Id>, i: nat, j: nat)
    requires At(db0, db, judge, g, i, j)
    ensures SameNames(db0, db)
  {
    forall id | id in db0 ensures db[id].name == db0[id].name && db[id].kind == db0[id].kind {
      if id in g {
        var t :| 0 <= t < |g| && g[t] == id;
        assert Linked(db0, db, judge, g, i, j, t);
      }
    }
  }

  ghost predicate SameNames(db0: Entities, db: Entities) {
    db.Keys == db0.Keys && forall id :: id in db0 ==> db[id].name == db0[id].name && db[id].kind == db0[id].kind
  }

  // ----- the candidates

  /**
    The rows of the candidate query: unlinked, mentioned at least twice, and within a type in the order of their
    names.
   */
  ghost predicate Candidates(db: Entities, cands: seq<Id>) {
    && (forall id :: id in cands <==> id in db && db[id].canonical.None? && db[id].mentions >= 2)
    && forall i, j :: 0 <= i < j < |cands| ==> cands[i] != cands[j] && InOrder(db, cands[i], cands[j])
  }

  ghost predicate InOrder(db: Entities, a: Id, b: Id) {
    a in db && b in db && (db[a].kind == db[b].kind ==> Less(db[a].name, db[b].name))
  }

  function OfKind(db: Entities, cands: seq<Id>, kind: Kind): (g: seq<Id>)
    requires forall id :: id in cands ==> id in db
    ensures forall id :: id in g <==> id in cands && db[id].kind == kind
  {
    if cands == [] then []
    else OfKind(db, cands[..|cands| - 1], kind) + if db[cands[|cands| - 1]].kind == kind then [cands[|cands| - 1]]
        else []
  }

  lemma {:induction false} OfKindInOrder(db: Entities, cands: seq<Id>, kind: Kind)
    requires forall id :: id in cands ==> id in db
    requires forall i, j :: 0 <= i < j < |cands| ==> cands[i] != cands[j] && InOrder(db, cands[i], cands[j])
    ensures Group(db, OfKind(db, cands, kind))
  {
    var g := OfKind(db, cands, kind);
    if cands != [] {
      var n := |cands| - 1;
      var g0 := OfKind(db, cands[..n], kind);
      OfKindInOrder(db, cands[..n], kind);
      forall i, j | 0 <= i < j < |g| ensures Earlier(db, g[i], g[j]) {
        if j < |g0| {
          assert Earlier(db, g0[i], g0[j]);
        } else {
          assert g0[i] in g0;
          var k :| 0 <= k < n && cands[k] == g0[i];
          assert InOrder(db, cands[k], cands[n]);
        }
      }
    }
  }

  // ----- the pass

  ghost predicate Finished(db0: Entities, db: Entities, judge: Judge, g: seq<Id>) {
    At(db0, db, judge, g, |g|, |g| + 1)
  }

  lemma SmallGroup(db: Entities, judge: Judge, g: seq<Id>)
    requires Group(db, g) && |g| < 2
    ensures Finished(db, db, judge, g)
  {
    var i, j := |g|, |g| + 1;
    forall t: nat | t < |g| ensures Linked(db, db, judge, g, i, j, t) {
      assert Compared(|g|, |g| + 1, t) == 0;
    }
  }

  /** The table when the groups of these types have been gone through. */
  ghost predicate PassAt(db0: Entities, db: Entities, judge: Judge, cands: seq<Id>, done: set<Kind>)
    requires forall id :: id in cands ==> id in db0
  {
    && db.Keys == db0.Keys
    && (forall id :: id in db0 && (id !in cands || db0[id].kind !in done) ==> db[id] == db0[id])
    && (forall kind {:trigger kind in done} :: kind in done ==> GroupLinked(db0, db, judge, OfKind(db0, cands, kind)))
  }

  /** Every member of the group has its final link. */
  ghost predicate GroupLinked(db0: Entities, db: Entities, judge: Judge, g: seq<Id>) {
    forall t: nat {:trigger FullyLinked(db0, db, judge, g, t)} :: t < |g| ==> FullyLinked(db0, db, judge, g, t)
  }

  ghost predicate FullyLinked(db0: Entities, db: Entities, judge: Judge, g: seq<Id>, t: nat) {
    t < |g| && g[t] in db0 && g[t] in db && db[g[t]] == db0[g[t]].(canonical := LinkAfter(db0, judge, g, t, t))
  }

  lemma FinishedLinks(db0: Entities, db1: Entities, db2: Entities, judge: Judge, g: seq<Id>)
    requires Finished(db1, db2, judge, g) && forall id :: id in g ==> id in db0 && id in db1 && db1[id] == db0[id]
    ensures GroupLinked(db0, db2, judge, g)
  {
    var i, j := |g|, |g| + 1;
    forall t: nat | t < |g| ensures FullyLinked(db0, db2, judge, g, t) {
      assert Linked(db1, db2, judge, g, i, j, t);
      assert Compared(i, j, t) == t;
    }
  }

  lemma PassNextGroup(db0: Entities, db1: Entities, db2: Entities, judge: Judge, cands: seq<Id>, done: set<Kind>,
                      kind: Kind)
    requires Candidates(db0, cands) && kind !in done && PassAt(db0, db1, judge, cands, done)
    requires Finished(db1, db2, judge, OfKind(db0, cands, kind))
    ensures PassAt(db0, db2, judge, cands, done + {kind})
  {
    var g := OfKind(db0, cands, kind);
    FinishedLinks(db0, db1, db2, judge, g);
    forall k | k in done ensures GroupLinked(db0, db2, judge, OfKind(db0, cands, k)) {
      var h := OfKind(db0, cands, k);
      forall t: nat | t < |h| ensures FullyLinked(db0, db2, judge, h, t) {
        assert FullyLinked(db0, db1, judge, h, t) && h[t] in h && h[t] !in g;
      }
    }
  }

  /** A group is the same group whichever table its names are read from. */
  lemma SameGroup(db0: Entities, db: Entities, g: seq<Id>)
    requires SameNames(db0, db) && Group(db0, g)
    ensures Group(db, g)
  {
    forall i, j | 0 <= i < j < |g| ensures Earlier(db, g[i], g[j]) {
      assert Earlier(db0, g[i], g[j]);
    }
  }

  function TallyKinds(db: Entities, cands: seq<Id>, judge: Judge, kinds: seq<Kind>): Counts
    requires forall id :: id in cands ==> id in db
  {
    if kinds == [] then Counts(0, 0, 0)
    else
      var g := OfKind(db, cands, kinds[|kinds| - 1]);
      Add(TallyKinds(db, cands, judge, kinds[..|kinds| - 1]), TallyRows(judge, g, |g|))
  }

  function PairsOfKinds(db: Entities, cands: seq<Id>, kinds: seq<Kind>): nat
    requires forall id :: id in cands ==> id in db
  {
    if kinds == [] then 0
    else PairsOfKinds(db, cands, kinds[..|kinds| - 1]) + Pairs(|OfKind(db, cands, kinds[|kinds| - 1])|)
  }

  /** Merged are at most the confirmed, confirmed at most the considered, considered at most all pairs of a type. */
  lemma {:induction false} PassBounded(db: Entities, cands: seq<Id>, judge: Judge, kinds: seq<Kind>)
    requires forall id :: id in cands ==> id in db
    ensures Bounded(TallyKinds(db, cands, judge, kinds), PairsOfKinds(db, cands, kinds))
  {
    if kinds != [] {
      PassBounded(db, cands, judge, kinds[..|kinds| - 1]);
      GroupBounded(judge, OfKind(db, cands, kinds[|kinds| - 1]));
    }
  }

  lemma SmallTally(judge: Judge, g: seq<Id>)
    requires |g| < 2
    ensures TallyRows(judge, g, |g|) == Counts(0, 0, 0)
  {
    if |g| == 1 {
      assert TallyRow(judge, g, 0, 1) == Counts(0, 0, 0);
      assert TallyRows(judge, g, 0) == Counts(0, 0, 0);
    }
  }

  lemma KindsStep(db: Entities, cands: seq<Id>, judge: Judge, kinds: seq<Kind>, n: nat)
    requires n < |kinds| && forall id :: id in cands ==> id in db
    ensures KindSet(kinds[..n + 1]) == KindSet(kinds[..n]) + {kinds[n]}
        && (kinds[n] in KindSet(kinds[..n]) <==> kinds[n] in kinds[..n])
    ensures var g := OfKind(db, cands, kinds[n]);
      TallyKinds(db, cands, judge, kinds[..n + 1])
          == Add(TallyKinds(db, cands, judge, kinds[..n]), TallyRows(judge, g, |g|))
  {
    assert kinds[..n + 1][..n] == kinds[..n];
  }

  lemma LinksKeep(db0: Entities, db: Entities, judge: Judge, g: seq<Id>, i: nat, j: nat)
    requires Group(db0, g) && At(db0, db, judge, g, i, j)
    ensures SameNames(db0, db) && (Forest(db0) ==> Forest(db))
  {
    AtKeepsNames(db0, db, judge, g, i, j);
    if Forest(db0) {
      AtKeepsForest(db0, db, judge, g, i, j);
    }
  }

  /** The judge fails on some pair of these. */
  ghost predicate SomeFails(judge: Judge, s: seq<Id>) {
    exists a, b :: a in s && b in s && judge.Fails(a, b)
  }

  lemma FailsAmong(judge: Judge, part: seq<Id>, all: seq<Id>)
    requires SomeFails(judge, part) && forall id :: id in part ==> id in all
    ensures SomeFails(judge, all)
  {
    var a, b :| a in part && b in part && judge.Fails(a, b);
    assert a in all && b in all;
  }

  class EntityTable {
    var entities: Entities

    /** Links one entity to another; false if there is no such row. */
    method MergePair(kept: Id, merged: Id) returns (updated: bool)
      modifies this
      ensures updated <==> merged in old(entities)
      ensures entities == if merged in old(entities) then Link(old(entities), kept, merged) else old(entities)
    {
      updated := merged in entities;
      if updated {
        entities := entities[merged := entities[merged].(canonical := Some(kept))];
      }
    }

    /** One pair; `raised` if the judge failed. */
    method LookAt(judge: Judge, a: Id, b: Id, counts: Counts) returns (counts': Counts, raised: bool)
      requires b in entities
      modifies this
      ensures raised <==> judge.Fails(a, b)
      ensures !raised ==> counts' == Add(counts, Tally(judge, a, b))
      ensures entities == if judge.Confirms(a, b) then Link(old(entities), a, b) else old(entities)
    {
      counts', raised := counts, false;
      if !judge.close(a, b) {
        return;
      }
      counts' := counts'.(considered := counts'.considered + 1);
      if !judge.llmConfirm {
        counts' := counts'.(confirmed := counts'.confirmed + 1);
        return;
      }
      var answer := judge.answer(a, b);
      if answer == Raised {
        raised := true;
        return;
      }
      if answer == Same {
        counts' := counts'.(confirmed := counts'.confirmed + 1);
        var updated := MergePair(a, b);
        if updated {
          counts' := counts'.(merged := counts'.merged + 1);
        }
      }
    }

    /** All pairs of one group; stops at (i, j) if the judge fails there. */
    method RunGroup(judge: Judge, g: seq<Id>, counts0: Counts)
      returns (counts: Counts, raised: bool, ghost at: nat, ghost next: nat)
      requires Group(entities, g)
      modifies this
      ensures !raised ==> Finished(old(entities), entities, judge, g)
      ensures !raised ==> counts == Add(counts0, TallyRows(judge, g, |g|))
      ensures raised ==> at < next < |g| && judge.Fails(g[at], g[next])
      ensures raised ==> At(old(entities), entities, judge, g, at, next)
    {
      ghost var db0 := entities;
      counts, raised, at, next := counts0, false, 0, 1;
      var i := 0;
      AtStart(db0, judge, g);
      while i < |g|
        invariant 0 <= i <= |g| && !raised && At(db0, entities, judge, g, i, i + 1)
        invariant counts == Add(counts0, TallyRows(judge, g, i))
      {
        counts, raised, next := RunRow(judge, g, i, counts, db0);
        if raised {
          at := i;
          return;
        }
        AtNextRow(db0, entities, judge, g, i);
        i := i + 1;
      }
    }

    method NextPair(judge: Judge, g: seq<Id>, i: nat, j: nat, ghost counts0: Counts, counts: Counts,
                    ghost db0: Entities)
      returns (counts': Counts, raised: bool)
      requires i < j < |g| && Group(db0, g) && At(db0, entities, judge, g, i, j)
      requires counts == Add(counts0, TallyRow(judge, g, i, j))
      modifies this
      ensures !raised ==> At(db0, entities, judge, g, i, j + 1)
      ensures !raised ==> counts' == Add(counts0, TallyRow(judge, g, i, j + 1))
      ensures raised ==> judge.Fails(g[i], g[j])
      ensures raised ==> entities == old(entities)
    {
      AtNextPair(db0, entities, judge, g, i, j);
      TallyOnePair(judge, g, i, j, counts0, counts);
      counts', raised := LookAt(judge, g[i], g[j], counts);
    }

    /** The pairs of g[i] with the later candidates. */
    method RunRow(judge: Judge, g: seq<Id>, i: nat, counts0: Counts, ghost db0: Entities)
      returns (counts: Counts, raised: bool, ghost next: nat)
      requires i < |g| && Group(db0, g) && At(db0, entities, judge, g, i, i + 1)
      modifies this
      ensures !raised ==> At(db0, entities, judge, g, i, |g|)
      ensures !raised ==> counts == Add(counts0, TallyRow(judge, g, i, |g|))
      ensures raised ==> i < next < |g| && judge.Fails(g[i], g[next])
      ensures raised ==> At(db0, entities, judge, g, i, next)
    {
      counts, raised := counts0, false;
      var j := i + 1;
      while j < |g| && !raised
        invariant i < j <= |g| && At(db0, entities, judge, g, i, j)
        invariant raised ==> j < |g| && judge.Fails(g[i], g[j])
        invariant !raised ==> counts == Add(counts0, TallyRow(judge, g, i, j))
        decreases |g| - j, !raised
      {
        counts, raised := NextPair(judge, g, i, j, counts0, counts, db0);
        j := if raised then j else j + 1;
      }
      next := j;
    }

    /** One pass over the candidates, type by type; `raised` if the judge fails on the way. */
    method RunPass(judge: Judge, cands: seq<Id>) returns (counts: Counts, raised: bool, ghost kinds: seq<Kind>)
      requires Candidates(entities, cands)
      modifies this
      ensures forall i, j :: 0 <= i < j < |kinds| ==> kinds[i] != kinds[j]
      ensures !raised ==> (forall id :: id in cands ==> old(entities)[id].kind in kinds)
      ensures !raised ==> PassAt(old(entities), entities, judge, cands, KindSet(kinds))
      ensures !raised ==> counts == TallyKinds(old(entities), cands, judge, kinds)
      ensures !raised ==> Bounded(counts, PairsOfKinds(old(entities), cands, kinds))
      ensures raised ==> SomeFails(judge, cands)
      ensures SameNames(old(entities), entities) && (Forest(old(entities)) ==> Forest(entities))
    {
      ghost var db0 := entities;
      var types, groups := GroupByType(cands);
      counts, raised, kinds := Counts(0, 0, 0), false, types;
      var n := 0;
      while n < |types| && !raised
        invariant 0 <= n <= |types| && SameNames(db0, entities) && (Forest(db0) ==> Forest(entities))
        invariant !raised ==> PassAt(db0, entities, judge, cands, KindSet(types[..n]))
        invariant !raised ==> counts == TallyKinds(db0, cands, judge, types[..n])
        invariant raised ==> SomeFails(judge, cands)
        decreases |types| - n, !raised
      {
        counts, raised := NextGroup(judge, cands, types, n, groups[types[n]], counts, db0);
        n := if raised then n else n + 1;
      }
      assert types[..|types|] == types;
      PassBounded(db0, cands, judge, types);
    }

    method NextGroup(judge: Judge, cands: seq<Id>, types: seq<Kind>, n: nat, group: seq<Id>, counts: Counts,
                     ghost db0: Entities)
      returns (counts': Counts, raised: bool)
      requires Candidates(db0, cands) && n < |types| && types[n] !in types[..n] && group == OfKind(db0, cands, types[n])
      requires SameNames(db0, entities) && PassAt(db0, entities, judge, cands, KindSet(types[..n]))
      requires counts == TallyKinds(db0, cands, judge, types[..n])
      modifies this
      ensures SameNames(db0, entities) && (Forest(old(entities)) ==> Forest(entities))
      ensures !raised ==> PassAt(db0, entities, judge, cands, KindSet(types[..n + 1]))
      ensures !raised ==> counts' == TallyKinds(db0, cands, judge, types[..n + 1])
      ensures raised ==> SomeFails(judge, cands)
    {
      ghost var before := entities;
      OfKindInOrder(db0, cands, types[n]);
      SameGroup(db0, entities, group);
      KindsStep(db0, cands, judge, types, n);
      counts', raised := SmallOrNot(judge, group, counts);
      if raised {
        FailsAmong(judge, group, cands);
      } else {
        PassNextGroup(db0, before, entities, judge, cands, KindSet(types[..n]), types[n]);
      }
    }

    /** A group of one is skipped. */
    method SmallOrNot(judge: Judge, group: seq<Id>, counts: Counts) returns (counts': Counts, raised: bool)
      requires Group(entities, group)
      modifies this
      ensures SameNames(old(entities), entities) && (Forest(old(entities)) ==> Forest(entities))
      ensures !raised ==> Finished(old(entities), entities, judge, group)
      ensures !raised ==> counts' == Add(counts, TallyRows(judge, group, |group|))
      ensures raised ==> SomeFails(judge, group)
    {
      if |group| < 2 {
        SmallGroup(entities, judge, group);
        SmallTally(judge, group);
        return counts, false;
      }
      ghost var before, i, j := entities, 0, 0;
      counts', raised, i, j := RunGroup(judge, group, counts);
      LinksKeep(before, entities, judge, group, if raised then i else |group|, if raised then j else |group| + 1);
    }

    /** The candidates by type, the types in the order in which they come up. */
    method GroupByType(cands: seq<Id>) returns (types: seq<Kind>, groups: map<Kind, seq<Id>>)
      requires forall id :: id in cands ==> id in entities
      ensures (forall id :: id in cands ==> entities[id].kind in types)
      ensures (forall i, j :: 0 <= i < j < |types| ==> types[i] != types[j])
      ensures forall kind :: kind in types ==> kind in groups && groups[kind] == OfKind(entities, cands, kind)
    {
      types, groups := [], map[];
      for n := 0 to |cands|
        invariant Grouped(entities, cands[..n], types, groups)
      {
        assert cands[..n + 1] == cands[..n] + [cands[n]];
        types, groups := AddToGroup(entities, cands[..n], cands[n], types, groups);
      }
      assert cands[..|cands|] == cands;
    }
  }

  method AddToGroup(db: Entities, ghost cands: seq<Id>, id: Id, types: seq<Kind>, groups: map<Kind, seq<Id>>)
    returns (types': seq<Kind>, groups': map<Kind, seq<Id>>)
    requires Grouped(db, cands, types, groups) && id in db
    ensures Grouped(db, cands + [id], types', groups')
  {
    types', groups' := types, groups;
    var kind := db[id].kind;
    GroupOneMore(db, cands, id, types, groups, kind);
    if kind !in groups' {
      types', groups' := types + [kind], groups[kind := []];
      assert groups'[kind := [] + [id]] == groups[kind := [id]];
    }
    groups' := groups'[kind := groups'[kind] + [id]];
  }

  /** The candidates looked at so far, by type. */
  ghost predicate Grouped(db: Entities, cands: seq<Id>, types: seq<Kind>, groups: map<Kind, seq<Id>>) {
    && (forall id :: id in cands ==> id in db && db[id].kind in types)
    && (forall i, j :: 0 <= i < j < |types| ==> types[i] != types[j])
    && groups.Keys == KindSet(types)
    && forall kind :: kind in groups ==> groups[kind] == OfKind(db, cands, kind)
  }

  lemma OneMoreOfKind(db: Entities, cands: seq<Id>, id: Id, k: Kind)
    requires (forall c :: c in cands ==> c in db) && id in db && forall c :: c in cands + [id] ==> c in db
    ensures OfKind(db, cands + [id], k) == OfKind(db, cands, k) + if k == db[id].kind then [id] else []
  {
    var cands' := cands + [id];
    assert cands'[..|cands'| - 1] == cands && cands'[|cands'| - 1] == id;
  }

  lemma GroupOneMore(db: Entities, cands: seq<Id>, id: Id, types: seq<Kind>, groups: map<Kind, seq<Id>>, kind: Kind)
    requires Grouped(db, cands, types, groups) && id in db && db[id].kind == kind
    ensures kind in groups ==> Grouped(db, cands + [id], types, groups[kind := groups[kind] + [id]])
    ensures kind !in groups ==> Grouped(db, cands + [id], types + [kind], groups[kind := [id]])
  {
    if kind in groups {
      GroupKnown(db, cands, id, types, groups, kind);
    } else {
      GroupNew(db, cands, id, types, groups, kind);
    }
  }

  lemma GroupKnown(db: Entities, cands: seq<Id>, id: Id, types: seq<Kind>, groups: map<Kind, seq<Id>>, kind: Kind)
    requires Grouped(db, cands, types, groups) && id in db && db[id].kind == kind && kind in groups
    ensures Grouped(db, cands + [id], types, groups[kind := groups[kind] + [id]])
  {
    var groups' := groups[kind := groups[kind] + [id]];
    forall k | k in groups' ensures groups'[k] == OfKind(db, cands + [id], k) {
      OneMoreOfKind(db, cands, id, k);
    }
  }

  lemma GroupNew(db: Entities, cands: seq<Id>, id: Id, types: seq<Kind>, groups: map<Kind, seq<Id>>, kind: Kind)
    requires Grouped(db, cands, types, groups) && id in db && db[id].kind == kind && kind !in groups
    ensures Grouped(db, cands + [id], types + [kind], groups[kind := [id]])
  {
    var cands', types', groups' := cands + [id], types + [kind], groups[kind := [id]];
    NoneOfKind(db, cands, kind);
    OneMoreKind(types, kind);
    forall k | k in groups' ensures groups'[k] == OfKind(db, cands', k) {
      OneMoreOfKind(db, cands, id, k);
    }
    forall c | c in cands' ensures c in db && db[c].kind in types' {
      assert c in cands || c == id;
    }
  }

  lemma OneMoreKind(types: seq<Kind>, kind: Kind)
    ensures KindSet(types + [kind]) == KindSet(types) + {kind}
  {
  }

  lemma {:induction false} NoneOfKind(db: Entities, cands: seq<Id>, kind: Kind)
    requires forall id :: id in cands ==> id in db && db[id].kind != kind
    ensures OfKind(db, cands, kind) == []
  {
    if cands != [] {
      NoneOfKind(db, cands[..|cands| - 1], kind);
    }
  }

  ghost function KindSet(kinds: seq<Kind>): set<Kind> { set k | k in kinds }

  // ----- over every run

  /**
    What can happen to the table: an entity is first seen, one is mentioned again, or a pass gets to some point of
    some group.
   */
  ghost predicate Step(db: Entities, db': Entities) {
    || (exists id, name, kind :: id !in db && db' == db[id := Entity(name, kind, None, 1)])
    || (exists id :: id in db && db' == db[id := db[id].(mentions := db[id].mentions + 1)])
    || (exists judge, g, i, j :: PassReaches(db, db', judge, g, i, j))
  }

  ghost predicate PassReaches(db: Entities, db': Entities, judge: Judge, g: seq<Id>, i: nat, j: nat) {
    Group(db, g) && At(db, db', judge, g, i, j)
  }

  ghost predicate IsRun(run: seq<Entities>) {
    forall k :: 0 < k < |run| ==> Step(run[k - 1], run[k])
  }

  lemma StepKeepsForest(db: Entities, db': Entities)
    requires Forest(db) && Step(db, db')
    ensures Forest(db')
  {
    if judge, g, i, j :| PassReaches(db, db', judge, g, i, j) {
      AtKeepsForest(db, db', judge, g, i, j);
    } else {
      forall id | id in db' ensures LinkRight(db', id) {
        assert id in db ==> LinkRight(db, id);
      }
    }
  }

  /**
    Whatever the judges said and wherever passes were cut short, links join entities of one type and lead to earlier
    names.
   */
  lemma {:induction false} ForestOverRuns(run: seq<Entities>, k: nat)
    requires k < |run| && IsRun(run) && Forest(run[0])
    ensures Forest(run[k])
  {
    if k > 0 {
      ForestOverRuns(run, k - 1);
      StepKeepsForest(run[k - 1], run[k]);
    }
  }

  // ----- one link or the whole chain

  /** k is the last candidate in front of id that was confirmed to be it. */
  ghost predicate Kept(db: Entities, judge: Judge, cands: seq<Id>, k: Id, id: Id) {
    && k in cands && id in cands && Earlier(db, k, id) && judge.Confirms(k, id)
    && forall m :: m in cands && Earlier(db, k, m) && Earlier(db, m, id) ==> !judge.Confirms(m, id)
  }

  /** Some candidate in front of id was confirmed to be it. */
  ghost predicate Merged(db: Entities, judge: Judge, cands: seq<Id>, id: Id) {
    exists m :: m in cands && id in cands && Earlier(db, m, id) && judge.Confirms(m, id)
  }

  /** A whole pass over the candidates. */
  ghost predicate Passed(db0: Entities, db: Entities, judge: Judge, cands: seq<Id>, kinds: seq<Kind>) {
    && Candidates(db0, cands) && (forall id :: id in cands ==> db0[id].kind in kinds)
    && PassAt(db0, db, judge, cands, KindSet(kinds))
  }

  lemma {:induction false} LessAsymmetric(a: string, b: string)
    ensures !(Less(a, b) && Less(b, a))
  {
    if a != "" && b != "" && a[0] == b[0] {
      LessAsymmetric(a[1..], b[1..]);
    }
  }

  /** In a group the order of the names is the order of the places. */
  lemma PlacesInOrder(db: Entities, g: seq<Id>, i: nat, j: nat)
    requires Group(db, g) && i < |g| && j < |g|
    ensures Earlier(db, g[i], g[j]) <==> i < j
  {
    if j < i {
      assert Earlier(db, g[j], g[i]);
      LessAsymmetric(db[g[i]].name, db[g[j]].name);
    } else if i < j {
      assert Earlier(db, g[i], g[j]);
    }
  }

  /** The link that the loops give is to the last candidate confirmed. */
  lemma LastKeptIsKept(db: Entities, judge: Judge, cands: seq<Id>, g: seq<Id>, t: nat)
    requires Group(db, g) && t < |g|
    requires forall id :: id in g <==> id in cands && id in db && db[id].kind == db[g[t]].kind
    ensures LastKept(judge, g, t, t).Some? ==> Kept(db, judge, cands, LastKept(judge, g, t, t).value, g[t])
    ensures Merged(db, judge, cands, g[t]) ==> LastKept(judge, g, t, t).Some?
  {
    var k := LastKeptExact(judge, g, t, t);
    if LastKept(judge, g, t, t).Some? {
      PlacesInOrder(db, g, k, t);
      forall m | m in cands && Earlier(db, g[k], m) && Earlier(db, m, g[t]) ensures !judge.Confirms(m, g[t]) {
        var n :| 0 <= n < |g| && g[n] == m;
        PlacesInOrder(db, g, k, n);
        PlacesInOrder(db, g, n, t);
      }
    }
    if Merged(db, judge, cands, g[t]) {
      var m :| m in cands && Earlier(db, m, g[t]) && judge.Confirms(m, g[t]);
      var n :| 0 <= n < |g| && g[n] == m;
      PlacesInOrder(db, g, n, t);
    }
  }

  /** There is at most one such candidate. */
  lemma KeptUnique(db: Entities, judge: Judge, cands: seq<Id>, k: Id, k': Id, id: Id, g: seq<Id>)
    requires Kept(db, judge, cands, k, id) && Kept(db, judge, cands, k', id) && Group(db, g) && k in g && k' in g
    ensures k == k'
  {
    var i :| 0 <= i < |g| && g[i] == k;
    var j :| 0 <= j < |g| && g[j] == k';
    PlacesInOrder(db, g, i, j);
    PlacesInOrder(db, g, j, i);
  }

  /** The links after a pass: of candidates those confirmed last, of all others the old ones. */
  lemma LinkAfterPass(db0: Entities, db: Entities, judge: Judge, cands: seq<Id>, kinds: seq<Kind>, id: Id)
    requires Passed(db0, db, judge, cands, kinds) && id in db0
    ensures id in db && db[id] == db0[id].(canonical := db[id].canonical)
    ensures id in cands ==> db0[id].canonical.None? && (db[id].canonical.Some? <==> Merged(db0, judge, cands, id))
    ensures id in cands ==> forall k :: Kept(db0, judge, cands, k, id) <==> db[id].canonical == Some(k)
    ensures id !in cands ==> db[id] == db0[id]
  {
    if id in cands {
      var g := OfKind(db0, cands, db0[id].kind);
      OfKindInOrder(db0, cands, db0[id].kind);
      assert id in g && db0[id].kind in KindSet(kinds);
      var t :| 0 <= t < |g| && g[t] == id;
      assert FullyLinked(db0, db, judge, g, t);
      LastKeptIsKept(db0, judge, cands, g, t);
      forall k | Kept(db0, judge, cands, k, id) ensures db[id].canonical == Some(k) {
        assert Merged(db0, judge, cands, id);
        KeptUnique(db0, judge, cands, k, LastKept(judge, g, t, t).value, id, g);
      }
    }
  }

  /** After the pass id is linked to k: since before, or because k was the last one confirmed. */
  ghost predicate LinksTo(db0: Entities, judge: Judge, cands: seq<Id>, id: Id, k: Id) {
    id in db0 && (db0[id].canonical == Some(k) || Kept(db0, judge, cands, k, id))
  }

  /** After the pass the entity is linked: it was before, or something was confirmed for it. */
  ghost predicate LinkedAfter(db0: Entities, judge: Judge, cands: seq<Id>, id: Id) {
    id in db0 && (db0[id].canonical.Some? || Merged(db0, judge, cands, id))
  }

  /** After the pass the entity is linked to one that is linked itself. */
  ghost predicate Chained(db0: Entities, judge: Judge, cands: seq<Id>, id: Id) {
    exists k :: LinksTo(db0, judge, cands, id, k) && LinkedAfter(db0, judge, cands, k)
  }

  lemma LinkedIff(db0: Entities, db: Entities, judge: Judge, cands: seq<Id>, kinds: seq<Kind>, id: Id)
    requires Passed(db0, db, judge, cands, kinds) && id in db0
    ensures id in db && (db[id].canonical.Some? <==> LinkedAfter(db0, judge, cands, id))
    ensures forall k :: db[id].canonical == Some(k) <==> LinksTo(db0, judge, cands, id, k)
  {
    LinkAfterPass(db0, db, judge, cands, kinds, id);
    assert Merged(db0, judge, cands, id) ==> id in cands;
    forall k ensures db[id].canonical == Some(k) <==> LinksTo(db0, judge, cands, id, k) {
      assert Kept(db0, judge, cands, k, id) ==> id in cands;
    }
  }

  lemma ChainedIff(db0: Entities, db: Entities, judge: Judge, cands: seq<Id>, kinds: seq<Kind>, id: Id)
    requires Passed(db0, db, judge, cands, kinds) && id in db0 && id in db
    requires db[id].canonical.Some? ==> db[id].canonical.value in db
    ensures Chained(db0, judge, cands, id) <==> db[id].canonical.Some? && db[db[id].canonical.value].canonical.Some?
  {
    LinkedIff(db0, db, judge, cands, kinds, id);
    if db[id].canonical.Some? {
      var k := db[id].canonical.value;
      LinkedIff(db0, db, judge, cands, kinds, k);
      assert LinksTo(db0, judge, cands, id, k);
      assert forall j :: LinksTo(db0, judge, cands, id, j) ==> j == k;
    }
  }

  /**
    After a pass readers get the root of an entity if and only if the one it was linked to, in this pass or before, was
    not linked before and nothing was confirmed for it in this pass.
   */
  lemma ReadsRootIff(db0: Entities, db: Entities, judge: Judge, cands: seq<Id>, kinds: seq<Kind>, id: Id)
    requires Forest(db) && Passed(db0, db, judge, cands, kinds) && id in db0
    ensures id in db && (Canonical(db, id) == Root(db, id) <==> !Chained(db0, judge, cands, id))
  {
    CanonicalIsRootIff(db, id);
    assert LinkRight(db, id);
    ChainedIff(db0, db, judge, cands, kinds, id);
  }

  /** The judge that confirms the neighbours of three candidates, and not the first and the last. */
  function Neighbours(a: Id, b: Id, c: Id): Judge {
    Judge((x, y) => (x == a && y == b) || (x == b && y == c), true, (x, y) => Same)
  }

  /** Three entities of one type: the first with the given mentions, the others with two, and the links given. */
  function Three(a: Id, b: Id, c: Id, kind: Kind, mentions: nat, linkB: Option<Id>, linkC: Option<Id>): Entities {
    map[a := Entity("a", kind, None, mentions), b := Entity("b", kind, linkB, 2), c := Entity("c", kind, linkC, 2)]
  }

  lemma ThreeInOrder(a: Id, b: Id, c: Id, kind: Kind, mentions: nat, linkB: Option<Id>, linkC: Option<Id>)
    requires a != b && b != c && a != c
    ensures var db := Three(a, b, c, kind, mentions, linkB, linkC);
      Earlier(db, a, b) && Earlier(db, b, c) && Earlier(db, a, c)
  {
    assert Less("a", "b") && Less("b", "c") && Less("a", "c");
  }

  /** One pass over all three links c to b and b to a. */
  lemma ChainLeft(a: Id, b: Id, c: Id, kind: Kind, db: Entities, kinds: seq<Kind>)
    requires a != b && b != c && a != c
    requires Passed(Three(a, b, c, kind, 2, None, None), db, Neighbours(a, b, c), [a, b, c], kinds)
    ensures db == Three(a, b, c, kind, 2, Some(a), Some(b))
  {
    var db0, judge, cands := Three(a, b, c, kind, 2, None, None), Neighbours(a, b, c), [a, b, c];
    ThreeInOrder(a, b, c, kind, 2, None, None);
    LinkAfterPass(db0, db, judge, cands, kinds, a);
    LinkAfterPass(db0, db, judge, cands, kinds, b);
    LinkAfterPass(db0, db, judge, cands, kinds, c);
    LessAsymmetric("a", "b");
    LessAsymmetric("b", "c");
    assert !Merged(db0, judge, cands, a);
    assert Kept(db0, judge, cands, a, b) && Kept(db0, judge, cands, b, c);
  }

  /** Readers then get b for c, and not the root. */
  lemma ChainMisread(a: Id, b: Id, c: Id, kind: Kind)
    requires a != b && b != c && a != c
    ensures var db := Three(a, b, c, kind, 2, Some(a), Some(b));
      Forest(db) && Canonical(db, c) == b && Root(db, c) == a
  {
    var db := Three(a, b, c, kind, 2, Some(a), Some(b));
    ThreeInOrder(a, b, c, kind, 2, Some(a), Some(b));
    assert LinkRight(db, a) && LinkRight(db, b) && LinkRight(db, c);
    assert Root(db, b) == a;
  }

  /** The pass that leaves the chain: three entities mentioned twice are its candidates. */
  method ChainByOnePass(a: Id, b: Id, c: Id, kind: Kind) returns (t: EntityTable)
    requires a != b && b != c && a != c
    ensures fresh(t) && t.entities == Three(a, b, c, kind, 2, Some(a), Some(b))
  {
    t := new EntityTable;
    t.entities := Three(a, b, c, kind, 2, None, None);
    ThreeInOrder(a, b, c, kind, 2, None, None);
    assert Candidates(t.entities, [a, b, c]);
    var counts, raised, kinds := t.RunPass(Neighbours(a, b, c), [a, b, c]);
    ChainLeft(a, b, c, kind, t.entities, kinds);
  }

  /**
    The chain made by two passes: c is linked to b while a has been mentioned once only; after one more mention of it
    b is linked to a, and c, linked already, is no candidate any more.
   */
  method ChainByTwoPasses(a: Id, b: Id, c: Id, kind: Kind) returns (t: EntityTable)
    requires a != b && b != c && a != c
    ensures fresh(t) && t.entities == Three(a, b, c, kind, 2, Some(a), Some(b))
  {
    t := new EntityTable;
    t.entities := Three(a, b, c, kind, 1, None, None);
    ThreeInOrder(a, b, c, kind, 1, None, None);
    MergePass(t, Neighbours(a, b, c), b, c);
    t.entities := t.entities[a := t.entities[a].(mentions := 2)];
    assert t.entities == Three(a, b, c, kind, 2, None, Some(b));
    ThreeInOrder(a, b, c, kind, 2, None, Some(b));
    MergePass(t, Neighbours(a, b, c), a, b);
  }

  method MergePass(t: EntityTable, judge: Judge, x: Id, y: Id)
    requires Candidates(t.entities, [x, y]) && Earlier(t.entities, x, y)
    requires judge.Confirms(x, y) && !SomeFails(judge, [x, y])
    modifies t
    ensures t.entities == Link(old(t.entities), x, y)
  {
    ghost var db0 := t.entities;
    var counts, raised, kinds := t.RunPass(judge, [x, y]);
    PairLinked(db0, t.entities, judge, x, y, kinds);
  }

  /** A pass over two candidates that are confirmed to be the same links the later to the earlier. */
  lemma PairLinked(db0: Entities, db: Entities, judge: Judge, x: Id, y: Id, kinds: seq<Kind>)
    requires Passed(db0, db, judge, [x, y], kinds) && Earlier(db0, x, y) && judge.Confirms(x, y)
    ensures db == Link(db0, x, y)
  {
    var cands := [x, y];
    LessAsymmetric(db0[x].name, db0[y].name);
    LessIrreflexive(db0[x].name);
    LessIrreflexive(db0[y].name);
    assert x in cands && y in cands;
    assert Kept(db0, judge, cands, x, y) && !Merged(db0, judge, cands, x);
    forall id | id in db0 ensures id in db && db[id] == Link(db0, x, y)[id] {
      LinkAfterPass(db0, db, judge, cands, kinds, id);
    }
  }
}
