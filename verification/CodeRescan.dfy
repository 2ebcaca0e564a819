/**
  Scanning files again: the symbols of a file are deleted, with the relations from and to them, and inserted anew.
  Relations that led into the file are put aside, for the incremental pass to restore.
 */
module CodeRescan {
  import opened CodeIndex
  import opened CodeResolve
  import opened Ids
  import opened Wrappers

  /** The salted hash of a file: its path together with its contents. */
  datatype Version = Version(path: Id, hash: Id)

  /** A row of the scans table: the contents last scanned, and the memory that stands for them. */
  datatype Scan = Scan(hash: Id, file: Id)

  /** A file as it is on disk, with the ids drawn for it; None if its symbols cannot be extracted. */
  datatype Source = Source(version: Version, newFile: Id, language: Language, symbols: Option<map<Id, string>>)

  /** The tables a scan writes.  `orphans` are the relations put aside. */
  datatype Db = Db(
    files: map<Version, Id>,
    scans: map<Id, Scan>,
    owners: map<Id, Owner>,
    rows: map<Key, Option<Id>>,
    orphans: set<Key>)

  // ----- scanning one file

  /** The memory of the file: the one there is for these contents, or a new one. */
  function FileOf(db: Db, src: Source): Id {
    if src.version in db.files then db.files[src.version] else src.newFile
  }

  /** The file is as it was scanned last, or cannot be parsed, and then everything is rolled back. */
  predicate Skipped(db: Db, src: Source, force: bool) {
    || (src.version.path in db.scans && db.scans[src.version.path].hash == src.version.hash && !force)
    || src.symbols.None?
  }

  /** The symbols of the file. */
  function SymbolsOf(owners: map<Id, Owner>, file: Id): set<Id> {
    set id | id in owners && owners[id].file == file
  }

  /** The relations that lead to one of the symbols. */
  function Into(rows: map<Key, Option<Id>>, symbols: set<Id>): set<Key> {
    set key | key in rows && rows[key].Some? && rows[key].value in symbols
  }

  /** Deleting symbols deletes the relations from and to them. */
  function Cascade(rows: map<Key, Option<Id>>, symbols: set<Id>): map<Key, Option<Id>> {
    map key | key in rows && key.source !in symbols && (rows[key].Some? ==> rows[key].value !in symbols) :: rows[key]
  }

  function OwnersOf(file: Id, language: Language, symbols: map<Id, string>): map<Id, Owner> {
    map id | id in symbols :: Owner(file, symbols[id], language)
  }

  function Scanned(db: Db, src: Source, force: bool): Db {
    if Skipped(db, src, force) then db
    else
      var file := FileOf(db, src);
      var gone := SymbolsOf(db.owners, file);
      Db(db.files[src.version := file],
         db.scans[src.version.path := Scan(src.version.hash, file)],
         (db.owners - gone) + OwnersOf(file, src.language, src.symbols.value),
         Cascade(db.rows, gone),
         db.orphans + Into(db.rows, gone))
  }

  function ScannedAll(db: Db, srcs: seq<Source>, force: bool): Db
    decreases |srcs|
  {
    if srcs == [] then db else ScannedAll(Scanned(db, srcs[0], force), srcs[1..], force)
  }

  /** The memories whose symbols are deleted and inserted anew, one after the other. */
  function Replaced(db: Db, srcs: seq<Source>, force: bool): seq<Id>
    decreases |srcs|
  {
    if srcs == [] then []
    else
      var rest := Replaced(Scanned(db, srcs[0], force), srcs[1..], force);
      if Skipped(db, srcs[0], force) then rest else [FileOf(db, srcs[0])] + rest
  }

  // ----- what a scan does to symbols and relations

  /** Foreign keys: the ends of every relation are symbols. */
  ghost predicate Linked(owners: map<Id, Owner>, rows: map<Key, Option<Id>>) {
    forall key :: key in rows ==> key.source in owners && (rows[key].Some? ==> rows[key].value in owners)
  }

  /** No id that is drawn is this one. */
  ghost predicate NotDrawn(srcs: seq<Source>, id: Id) {
    forall src :: src in srcs && src.symbols.Some? ==> id !in src.symbols.value
  }

  lemma ScannedOwner(db: Db, src: Source, force: bool, id: Id)
    requires NotDrawn([src], id)
    ensures var after := Scanned(db, src, force);
      && (id in after.owners <==> id in db.owners && (Skipped(db, src, force) || db.owners[id].file != FileOf(db, src)))
      && (id in after.owners ==> after.owners[id] == db.owners[id])
  {
    assert src in [src];
  }

  lemma NotDrawnSplit(srcs: seq<Source>, id: Id)
    requires srcs != [] && NotDrawn(srcs, id)
    ensures NotDrawn([srcs[0]], id) && NotDrawn(srcs[1..], id)
  {
    forall src | src in [srcs[0]] || src in srcs[1..] ensures src in srcs {
    }
  }

  /** A symbol is there after the scan if it was there before and its file was not scanned again. */
  lemma {:induction false} OwnerStaysIff(db: Db, srcs: seq<Source>, force: bool, id: Id)
    requires NotDrawn(srcs, id)
    ensures var after := ScannedAll(db, srcs, force);
      && (id in after.owners <==> id in db.owners && db.owners[id].file !in Replaced(db, srcs, force))
      && (id in after.owners ==> after.owners[id] == db.owners[id])
    decreases |srcs|
  {
    if srcs != [] {
      NotDrawnSplit(srcs, id);
      ScannedOwner(db, srcs[0], force, id);
      OwnerStaysIff(Scanned(db, srcs[0], force), srcs[1..], force, id);
    }
  }

  lemma ScannedStaysLinked(db: Db, src: Source, force: bool)
    requires Linked(db.owners, db.rows)
    ensures Linked(Scanned(db, src, force).owners, Scanned(db, src, force).rows)
  {
  }

  /** b is scanned before a is, or no later than a. */
  ghost predicate FirstReplaced(steps: seq<Id>, a: Id, b: Id) {
    exists j :: 0 <= j < |steps| && steps[j] == b && a !in steps[..j]
  }

  lemma FirstReplacedStep(f: Id, rest: seq<Id>, a: Id, b: Id)
    ensures FirstReplaced([f] + rest, a, b) <==> b == f || (a != f && FirstReplaced(rest, a, b))
  {
    var steps := [f] + rest;
    if b == f {
      assert steps[0] == b && a !in steps[..0];
    }
    if j :| 0 <= j < |rest| && rest[j] == b && a !in rest[..j] && a != f {
      assert steps[j + 1] == b && steps[..j + 1] == [f] + rest[..j];
    }
    if j :| 0 < j < |steps| && steps[j] == b && a !in steps[..j] {
      assert steps[..j][0] == f;
      assert steps[..j] == [f] + rest[..j - 1] && rest[j - 1] == b;
    }
  }

  /** The files at the two ends of a resolved relation: it leads from a to b. */
  ghost predicate Leads(db: Db, key: Key, a: Id, b: Id) {
    && key in db.rows && db.rows[key].Some? && key.source in db.owners && db.rows[key].value in db.owners
    && db.owners[key.source].file == a && db.owners[db.rows[key].value].file == b
  }

  ghost predicate Keeps(srcs: seq<Source>, key: Key, target: Option<Id>) {
    NotDrawn(srcs, key.source) && (target.Some? ==> NotDrawn(srcs, target.value))
  }

  /** One scanned file: a relation into it is put aside, one only from it is gone, any other stays. */
  lemma ScannedRow(db: Db, src: Source, force: bool, key: Key, a: Id, b: Id)
    requires Leads(db, key, a, b) && Keeps([src], key, db.rows[key]) && !Skipped(db, src, force)
    ensures var after := Scanned(db, src, force); var f := FileOf(db, src);
      && (key in after.orphans <==> key in db.orphans || b == f)
      && (if a == f || b == f then key !in after.rows else Leads(after, key, a, b) && after.rows[key] == db.rows[key])
  {
    ScannedOwner(db, src, force, key.source);
    ScannedOwner(db, src, force, db.rows[key].value);
  }

  /** A relation that is not there, or not resolved, is never put aside. */
  lemma {:induction false} NeverPutAside(db: Db, srcs: seq<Source>, force: bool, key: Key)
    requires key !in db.rows || db.rows[key].None?
    ensures var after := ScannedAll(db, srcs, force);
      && (key in after.orphans <==> key in db.orphans)
      && (key in after.rows ==> key in db.rows && after.rows[key] == db.rows[key])
    decreases |srcs|
  {
    if srcs != [] {
      NeverPutAside(Scanned(db, srcs[0], force), srcs[1..], force, key);
    }
  }

  /**
    A resolved relation is put aside if and only if its target's file is scanned again, and its source's is not
    before.
   */
  lemma {:induction false} PutAsideIff(db: Db, srcs: seq<Source>, force: bool, key: Key, a: Id, b: Id)
    requires Leads(db, key, a, b) && Keeps(srcs, key, db.rows[key])
    ensures var after := ScannedAll(db, srcs, force); var steps := Replaced(db, srcs, force);
      && (key in after.orphans <==> key in db.orphans || FirstReplaced(steps, a, b))
      && (key in after.rows <==> a !in steps && b !in steps)
    decreases |srcs|
  {
    if srcs != [] {
      var next, rest := Scanned(db, srcs[0], force), srcs[1..];
      NotDrawnSplit(srcs, key.source);
      NotDrawnSplit(srcs, db.rows[key].value);
      if Skipped(db, srcs[0], force) {
        PutAsideIff(next, rest, force, key, a, b);
      } else {
        ScannedRow(db, srcs[0], force, key, a, b);
        FirstReplacedStep(FileOf(db, srcs[0]), Replaced(next, rest, force), a, b);
        if key in next.rows {
          PutAsideIff(next, rest, force, key, a, b);
        } else {
          NeverPutAside(next, rest, force, key);
        }
      }
    }
  }

  /** An unresolved relation stays if and only if its source's file is not scanned again. */
  lemma {:induction false} UnresolvedStaysIff(db: Db, srcs: seq<Source>, force: bool, key: Key)
    requires key in db.rows && db.rows[key].None? && key.source in db.owners && NotDrawn(srcs, key.source)
    ensures key in ScannedAll(db, srcs, force).rows <==> db.owners[key.source].file !in Replaced(db, srcs, force)
    decreases |srcs|
  {
    if srcs != [] {
      var next, rest := Scanned(db, srcs[0], force), srcs[1..];
      NotDrawnSplit(srcs, key.source);
      ScannedOwner(db, srcs[0], force, key.source);
      if key in next.rows {
        UnresolvedStaysIff(next, rest, force, key);
      } else {
        NeverPutAside(next, rest, force, key);
      }
    }
  }

  // ----- restoring

  /** The tables the incremental pass starts from. */
  function AfterScan(db: Db, srcs: seq<Source>, force: bool, defs: Defs): World {
    var after := ScannedAll(db, srcs, force);
    World(defs, after.owners, after.rows)
  }

  lemma {:induction false} StaysLinked(db: Db, srcs: seq<Source>, force: bool)
    requires Linked(db.owners, db.rows)
    ensures Linked(ScannedAll(db, srcs, force).owners, ScannedAll(db, srcs, force).rows)
    decreases |srcs|
  {
    if srcs != [] {
      ScannedStaysLinked(db, srcs[0], force);
      StaysLinked(Scanned(db, srcs[0], force), srcs[1..], force);
    }
  }

  /** The pass adds symbols under new ids only, and a relation only if its source is there. */
  lemma InsertedSources(w: World, newIds: map<Id, Id>, jobs: seq<Job>, key: Key)
    requires Consistent(w, newIds) && Jobs(jobs, newIds) && Linked(w.owners, w.rows)
    ensures var w' := InsertAll(w, newIds, jobs);
      && (key in w'.rows ==> key.source in w'.owners)
      && (key.source !in newIds.Values ==> (key.source in w'.owners <==> key.source in w.owners))
  {
    var w' := InsertAll(w, newIds, jobs);
    InsertAllExact(w, newIds, jobs);
    OwnersGrow(w, newIds, jobs);
    if key in w'.rows && key !in w.rows {
      assert Brought(w, newIds, jobs, key);
      var j :| j in jobs && KeyOf(w.defs, newIds, j) == Some(key);
      BroughtOwned(w, w', newIds, jobs, j, key);
    }
  }

  lemma {:induction false} OwnersGrow(w: World, newIds: map<Id, Id>, jobs: seq<Job>)
    requires Consistent(w, newIds) && Jobs(jobs, newIds)
    ensures InsertAll(w, newIds, jobs).owners.Keys <= w.owners.Keys + newIds.Values
  {
    if jobs != [] {
      var n := |jobs| - 1;
      OwnersGrow(w, newIds, jobs[..n]);
      InsertAllExact(w, newIds, jobs[..n]);
      AnchorOwned(w, InsertAll(w, newIds, jobs[..n]), newIds, jobs[n]);
    }
  }

  lemma AnchorOwned(w0: World, w: World, newIds: map<Id, Id>, job: Job)
    requires Consistent(w0, newIds) && Grown(w0, w, newIds) && job.file in newIds
    ensures Insert(w, newIds, job).owners.Keys <= w.owners.Keys + newIds.Values
  {
    assert AnchorGrown(w0, w, newIds, job.file);
    assert SymbolOf(w0.defs, job.file, ANCHOR).Some? ==> Owned(w0, job.file, ANCHOR);
  }

  /** A relation from a to b whose row cannot be restored: b is scanned again, and a then or later. */
  ghost predicate Lost(steps: seq<Id>, a: Id, b: Id) {
    exists j, i :: 0 <= j <= i < |steps| && steps[j] == b && steps[i] == a && a !in steps[..j]
  }

  lemma NotBefore(steps: seq<Id>, a: Id, i: nat, j: nat)
    requires i < |steps| && j <= |steps| && steps[i] == a
    ensures i < j ==> a in steps[..j]
  {
    if i < j {
      assert steps[..j][i] == a;
    }
  }

  lemma LostIff(steps: seq<Id>, a: Id, b: Id)
    ensures Lost(steps, a, b) <==> FirstReplaced(steps, a, b) && a in steps
  {
    if FirstReplaced(steps, a, b) && a in steps {
      var j :| 0 <= j < |steps| && steps[j] == b && a !in steps[..j];
      var i :| 0 <= i < |steps| && steps[i] == a;
      NotBefore(steps, a, i, j);
    }
  }

  /** No drawn id is in use: not as a symbol's, and not as the source of a relation that was put aside. */
  ghost predicate DrawnFresh(db: Db, srcs: seq<Source>, newIds: map<Id, Id>) {
    && (forall id :: id in db.owners ==> NotDrawn(srcs, id) && id !in newIds.Values)
    && (forall key :: key in db.orphans ==> NotDrawn(srcs, key.source) && key.source !in newIds.Values)
  }

  ghost predicate Ready(db: Db, srcs: seq<Source>, force: bool, defs: Defs, newIds: map<Id, Id>, jobs: seq<Job>) {
    && Linked(db.owners, db.rows) && DrawnFresh(db, srcs, newIds)
    && Consistent(AfterScan(db, srcs, force, defs), newIds) && Jobs(jobs, newIds)
  }

  /** A relation left over from an earlier scan that cannot be restored now. */
  ghost predicate LeftOver(db: Db, steps: seq<Id>, key: Key) {
    key in db.orphans && (key.source !in db.owners || db.owners[key.source].file in steps)
  }

  ghost predicate LosesRow(db: Db, steps: seq<Id>, key: Key) {
    exists a, b :: Leads(db, key, a, b) && Lost(steps, a, b)
  }

  ghost predicate CannotRestore(db: Db, steps: seq<Id>) {
    exists key :: LeftOver(db, steps, key) || LosesRow(db, steps, key)
  }

  /** The incremental pass after the scan fails. */
  ghost predicate PassFails(db: Db, srcs: seq<Source>, force: bool, defs: Defs, newIds: map<Id, Id>, jobs: seq<Job>)
    requires Jobs(jobs, newIds)
  {
    RestoreFails(InsertAll(AfterScan(db, srcs, force, defs), newIds, jobs), ScannedAll(db, srcs, force).orphans)
  }

  /** Which relations cannot be restored. */
  lemma NotRestoredIff(db: Db, srcs: seq<Source>, force: bool, defs: Defs, newIds: map<Id, Id>, jobs: seq<Job>,
                       key: Key, after: Db, w: World, steps: seq<Id>)
    requires Ready(db, srcs, force, defs, newIds, jobs) && after == ScannedAll(db, srcs, force)
    requires w == InsertAll(AfterScan(db, srcs, force, defs), newIds, jobs) && steps == Replaced(db, srcs, force)
    ensures key in after.orphans && key !in w.rows && key.source !in w.owners
       <==> LeftOver(db, steps, key) || LosesRow(db, steps, key)
  {
    StaysLinked(db, srcs, force);
    InsertedSources(AfterScan(db, srcs, force, defs), newIds, jobs, key);
    if key in db.rows && db.rows[key].Some? {
      var a, b := db.owners[key.source].file, db.owners[db.rows[key].value].file;
      assert Leads(db, key, a, b);
      PutAsideIff(db, srcs, force, key, a, b);
      OwnerStaysIff(db, srcs, force, key.source);
      LostIff(steps, a, b);
    } else {
      NeverPutAside(db, srcs, force, key);
      if key in db.orphans {
        OwnerStaysIff(db, srcs, force, key.source);
      }
    }
  }

  /**
    Restoring fails if and only if the file of a resolved relation's target was scanned again, and its source's file in
    the same step or later; or a relation is left over from an earlier failure, and its source is gone by now.
   */
  lemma RestoreFailsIff(db: Db, srcs: seq<Source>, force: bool, defs: Defs, newIds: map<Id, Id>, jobs: seq<Job>)
    requires Ready(db, srcs, force, defs, newIds, jobs)
    ensures PassFails(db, srcs, force, defs, newIds, jobs) <==> CannotRestore(db, Replaced(db, srcs, force))
  {
    var after, steps := ScannedAll(db, srcs, force), Replaced(db, srcs, force);
    var w := InsertAll(AfterScan(db, srcs, force, defs), newIds, jobs);
    forall key ensures key in after.orphans && key !in w.rows && key.source !in w.owners
        <==> LeftOver(db, steps, key) || LosesRow(db, steps, key) {
      NotRestoredIff(db, srcs, force, defs, newIds, jobs, key, after, w, steps);
    }
  }

  /** A failure stays: what could not be restored makes every later pass fail. */
  lemma FailureStays(db: Db, srcs: seq<Source>, force: bool, defs: Defs, newIds: map<Id, Id>, jobs: seq<Job>, key: Key)
    requires Ready(db, srcs, force, defs, newIds, jobs) && key in db.orphans && key.source !in db.owners
    ensures PassFails(db, srcs, force, defs, newIds, jobs)
  {
    assert LeftOver(db, Replaced(db, srcs, force), key);
    RestoreFailsIff(db, srcs, force, defs, newIds, jobs);
  }

  /** The tables with the symbols and relations that the incremental pass has written. */
  function Written(db: Db, w: World): Db { db.(owners := w.owners, rows := w.rows) }

  /** So a scan after one that failed fails again, as long as what was put aside is there. */
  lemma FailureRepeats(db: Db, srcs: seq<Source>, force: bool, defs: Defs, newIds: map<Id, Id>, jobs: seq<Job>, db': Db,
                       srcs': seq<Source>, force': bool, defs': Defs, newIds': map<Id, Id>, jobs': seq<Job>)
    requires Ready(db, srcs, force, defs, newIds, jobs) && PassFails(db, srcs, force, defs, newIds, jobs)
    requires db' == Written(ScannedAll(db, srcs, force), InsertAll(AfterScan(db, srcs, force, defs), newIds, jobs))
    requires Ready(db', srcs', force', defs', newIds', jobs')
    ensures PassFails(db', srcs', force', defs', newIds', jobs')
  {
    var key :| key in db'.orphans && key !in db'.rows && key.source !in db'.owners;
    FailureStays(db', srcs', force', defs', newIds', jobs', key);
  }

  /** What putting relations aside is for: those from files that are not scanned again are all there after the pass. */
  lemma RescanKeepsRows(db: Db, srcs: seq<Source>, force: bool, defs: Defs, newIds: map<Id, Id>, jobs: seq<Job>,
                        key: Key)
    requires Ready(db, srcs, force, defs, newIds, jobs)
    requires key in db.rows && db.owners[key.source].file !in Replaced(db, srcs, force)
    ensures key in Incremental(AfterScan(db, srcs, force, defs), newIds, jobs, ScannedAll(db, srcs, force).orphans).rows
  {
    var w, after := AfterScan(db, srcs, force, defs), ScannedAll(db, srcs, force);
    IncrementalExact(w, newIds, jobs, after.orphans);
    if db.rows[key].None? {
      UnresolvedStaysIff(db, srcs, force, key);
    } else {
      var a, b := db.owners[key.source].file, db.owners[db.rows[key].value].file;
      PutAsideIff(db, srcs, force, key, a, b);
      NeverReplaced(Replaced(db, srcs, force), a, b);
    }
  }

  lemma NeverReplaced(steps: seq<Id>, a: Id, b: Id)
    requires a !in steps
    ensures FirstReplaced(steps, a, b) <==> b in steps
  {
    if b in steps {
      var j :| 0 <= j < |steps| && steps[j] == b;
      assert forall k :: 0 <= k < j ==> steps[..j][k] == steps[k];
    }
  }

  lemma {:induction false} FirstPlace(steps: seq<Id>, f: Id) returns (j: nat)
    requires f in steps
    ensures j < |steps| && steps[j] == f && f !in steps[..j]
    decreases |steps|
  {
    var n := |steps| - 1;
    if f in steps[..n] {
      j := FirstPlace(steps[..n], f);
      assert steps[..n][..j] == steps[..j];
    } else {
      j := n;
    }
  }

  /** One resolved relation inside a file is enough: when the file is scanned again, restoring fails. */
  lemma CallInsideFileFails(db: Db, srcs: seq<Source>, force: bool, defs: Defs, newIds: map<Id, Id>, jobs: seq<Job>,
                            key: Key, file: Id)
    requires Ready(db, srcs, force, defs, newIds, jobs)
    requires Leads(db, key, file, file) && file in Replaced(db, srcs, force)
    ensures PassFails(db, srcs, force, defs, newIds, jobs)
  {
    var steps := Replaced(db, srcs, force);
    var j := FirstPlace(steps, file);
    assert Lost(steps, file, file);
    assert LosesRow(db, steps, key);
    RestoreFailsIff(db, srcs, force, defs, newIds, jobs);
  }

  /** One scanned file in which main calls helper, and a function of another file that calls something unknown. */
  function CallingFile(v: Version, file: Id, main': Id, helper: Id, elsewhere: Id, other: Id): Db {
    Db(map[v := file], map[v.path := Scan(v.hash, file)],
       map[main' := Owner(file, "main", Py), helper := Owner(file, "helper", Py),
           other := Owner(elsewhere, "other", Py)],
       map[Key(main', "helper", Calls, 1, 0) := Some(helper), Key(other, "unknown", Calls, 1, 0) := None], {})
  }

  /** The definitions table of the two functions under their new ids. */
  function CallingFileDefs(file: Id, main': Id, helper: Id): Defs {
    AddSymbol(AddSymbol(NO_DEFS, SymbolRow(main', "main", file)), SymbolRow(helper, "helper", file))
  }

  /** So a forced scan of that file, with the same functions and the same call extracted again, fails. */
  lemma ForcedScanFails(v: Version, file: Id, main': Id, helper: Id, elsewhere: Id, other: Id, main'': Id, helper': Id,
                        anchor: Id)
    requires |{main', helper, other, main'', helper', anchor}| == 6 && elsewhere != file
    ensures var src := Source(v, file, Py, Some(map[main'' := "main", helper' := "helper"]));
      var db, defs := CallingFile(v, file, main', helper, elsewhere, other), CallingFileDefs(file, main'', helper');
      var newIds, jobs := map[file := anchor], [Job(file, Relation("helper", Calls, 1, 0, "main"))];
      Ready(db, [src], true, defs, newIds, jobs) && PassFails(db, [src], true, defs, newIds, jobs)
  {
    AllDiffer(main', helper, other, main'', helper', anchor);
    var src := Source(v, file, Py, Some(map[main'' := "main", helper' := "helper"]));
    var job := Job(file, Relation("helper", Calls, 1, 0, "main"));
    var db, key := CallingFile(v, file, main', helper, elsewhere, other), Key(main', "helper", Calls, 1, 0);
    CallLeads(v, file, main', helper, elsewhere, other, db, key);
    CallIsPlain(job, map[file := anchor]);
    ForcedReady(db, file, {main', helper, other}, main'', helper', anchor, src, job);
    OneReplaced(db, src, file);
    CallInsideFileFails(db, [src], true, CallingFileDefs(file, main'', helper'), map[file := anchor], [job], key, file);
  }

  lemma CallLeads(v: Version, file: Id, main': Id, helper: Id, elsewhere: Id, other: Id, db: Db, key: Key)
    requires main' != helper && main' != other && helper != other
    requires db == CallingFile(v, file, main', helper, elsewhere, other) && key == Key(main', "helper", Calls, 1, 0)
    ensures Leads(db, key, file, file) && Linked(db.owners, db.rows)
    ensures db.owners.Keys == {main', helper, other} && db.orphans == {} && v in db.files && db.files[v] == file
  {
  }

  lemma OneReplaced(db: Db, src: Source, file: Id)
    requires src.symbols.Some? && FileOf(db, src) == file
    ensures file in Replaced(db, [src], true)
  {
    var rest := Replaced(Scanned(db, src, true), [src][1..], true);
    assert Replaced(db, [src], true) == [file] + rest;
  }

  lemma ForcedReady(db: Db, file: Id, used: set<Id>, main': Id, helper: Id, anchor: Id, src: Source, job: Job)
    requires db.owners.Keys == used && db.orphans == {} && Linked(db.owners, db.rows) && FileOf(db, src) == file
    requires main' !in used && helper !in used && anchor !in used
    requires main' != helper && main' != anchor && helper != anchor
    requires src.symbols == Some(map[main' := "main", helper := "helper"]) && Jobs([job], map[file := anchor])
    ensures Ready(db, [src], true, CallingFileDefs(file, main', helper), map[file := anchor], [job])
  {
    DefsConsistent(db, src, file, main', helper, anchor);
  }

  lemma CallIsPlain(job: Job, newIds: map<Id, Id>)
    requires job.rel == Relation("helper", Calls, 1, 0, "main") && job.file in newIds
    ensures Jobs([job], newIds)
  {
    assert "main"[0] != ANCHOR[0];
    assert Plain(job);
  }

  lemma AllDiffer(a: Id, b: Id, c: Id, d: Id, e: Id, f: Id)
    requires |{a, b, c, d, e, f}| == 6
    ensures a != b && a != c && a != d && a != e && a != f && b != c && b != d && b != e && b != f
    ensures c != d && c != e && c != f && d != e && d != f && e != f
  {
  }

  lemma DefsConsistent(db: Db, src: Source, file: Id, main': Id, helper: Id, anchor: Id)
    requires src.symbols == Some(map[main' := "main", helper := "helper"]) && main' != helper
    requires FileOf(db, src) == file && anchor !in db.owners && anchor != main' && anchor != helper
    ensures Consistent(AfterScan(db, [src], true, CallingFileDefs(file, main', helper)), map[file := anchor])
  {
    var w := AfterScan(db, [src], true, CallingFileDefs(file, main', helper));
    assert [src][1..] == [];
    assert ScannedAll(db, [src], true) == Scanned(db, src, true);
    assert w.owners == db.owners - SymbolsOf(db.owners, file) + OwnersOf(file, src.language, src.symbols.value);
    forall f, name | SymbolOf(w.defs, f, name).Some? ensures Owned(w, f, name) {
    }
  }

  // ----- the scanner

  lemma OneMoreOwner(file: Id, language: Language, symbols: map<Id, string>, rest: set<Id>, id: Id)
    requires id in rest && rest <= symbols.Keys
    ensures OwnersOf(file, language, symbols - (rest - {id}))
         == OwnersOf(file, language, symbols - rest)[id := Owner(file, symbols[id], language)]
  {
  }

  class Scanner {
    var files: map<Version, Id>
    var scans: map<Id, Scan>
    var owners: map<Id, Owner>
    var rows: map<Key, Option<Id>>
    var orphans: set<Key>

    ghost function Value(): Db
      reads this
    {
      Db(files, scans, owners, rows, orphans)
    }

    constructor (db: Db)
      ensures Value() == db
    {
      files, scans, owners, rows, orphans := db.files, db.scans, db.owners, db.rows, db.orphans;
    }

    method UpsertFileMemory(src: Source) returns (file: Id)
      modifies this`files
      ensures file == FileOf(old(Value()), src) && files == old(files)[src.version := file]
    {
      if src.version in files {
        file := files[src.version];
        assert files == files[src.version := file];
      } else {
        file := src.newFile;
        files := files[src.version := file];
      }
    }

    /** Deletes the symbols of a file and, by the cascades, the relations from and to them. */
    method DeleteSymbols(file: Id)
      modifies this`owners, this`rows
      ensures owners == old(owners) - SymbolsOf(old(owners), file)
          && rows == Cascade(old(rows), SymbolsOf(old(owners), file))
    {
      var gone := SymbolsOf(owners, file);
      rows := Cascade(rows, gone);
      owners := owners - gone;
    }

    method InsertSymbols(file: Id, language: Language, symbols: map<Id, string>)
      modifies this`owners
      ensures owners == old(owners) + OwnersOf(file, language, symbols)
    {
      var rest := symbols.Keys;
      while rest != {}
        invariant rest <= symbols.Keys
        invariant owners == old(owners) + OwnersOf(file, language, symbols - rest)
        decreases rest
      {
        var id :| id in rest;
        OneMoreOwner(file, language, symbols, rest, id);
        rest := rest - {id};
        owners := owners[id := Owner(file, symbols[id], language)];
      }
      assert symbols - rest == symbols;
    }

    /** Scans one file; true if it was parsed. */
    method ScanFile(src: Source, force: bool) returns (scanned: bool)
      modifies this
      ensures Value() == Scanned(old(Value()), src, force) && scanned == !Skipped(old(Value()), src, force)
    {
      if src.version.path in scans && scans[src.version.path].hash == src.version.hash && !force {
        return false;
      }
      if src.symbols.None? {
        return false;
      }
      var file := UpsertFileMemory(src);
      orphans := orphans + Into(rows, SymbolsOf(owners, file));
      DeleteSymbols(file);
      InsertSymbols(file, src.language, src.symbols.value);
      scans := scans[src.version.path := Scan(src.version.hash, file)];
      return true;
    }

    method ScanFiles(srcs: seq<Source>, force: bool)
      modifies this
      ensures Value() == ScannedAll(old(Value()), srcs, force)
    {
      var n := 0;
      ghost var rest := srcs;
      while n < |srcs|
        invariant 0 <= n <= |srcs| && rest == srcs[n..]
        invariant ScannedAll(Value(), rest, force) == ScannedAll(old(Value()), srcs, force)
      {
        var scanned := ScanFile(srcs[n], force);
        n, rest := n + 1, rest[1..];
      }
    }
  }

  /**
    A scan: the files one by one, and then the incremental pass over what was extracted from them.  When restoring
    fails, what was inserted before it stays, for releasing the lock commits it, and so does what was put aside.
   */
  method ScanAndResolve(scanner: Scanner, srcs: seq<Source>, force: bool, defs: Defs, newIds: map<Id, Id>,
                        files: seq<Id>, extracted: map<Id, seq<Relation>>)
    returns (ok: bool)
    requires Ready(scanner.Value(), srcs, force, defs, newIds, JobsOf(files, extracted))
    requires forall f :: f in files ==> f in newIds
    modifies scanner
    ensures ok <==> !CannotRestore(old(scanner.Value()), Replaced(old(scanner.Value()), srcs, force))
    ensures var db, after := old(scanner.Value()), ScannedAll(old(scanner.Value()), srcs, force);
      var start, jobs := AfterScan(db, srcs, force, defs), JobsOf(files, extracted);
      && (ok ==> scanner.Value() == Written(after, Incremental(start, newIds, jobs, after.orphans)).(orphans := {}))
      && (!ok ==> scanner.Value() == Written(after, InsertAll(start, newIds, jobs)))
  {
    ghost var db := scanner.Value();
    RestoreFailsIff(db, srcs, force, defs, newIds, JobsOf(files, extracted));
    scanner.ScanFiles(srcs, force);
    var resolver := new Resolver(defs, scanner.owners, scanner.rows, newIds);
    assert resolver.Value() == AfterScan(db, srcs, force, defs);
    ok := resolver.ResolveIncremental(files, extracted, scanner.orphans);
    scanner.owners, scanner.rows := resolver.owners, resolver.rows;
    if ok {
      scanner.orphans := {};
    }
  }
}
