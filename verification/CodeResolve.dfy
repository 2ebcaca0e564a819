/**
  Writing the relations of a scanned codebase: the full pass over all files, and the incremental pass
  that inserts what was just extracted and looks the unresolved rows up again.
 */
module CodeResolve {
  import opened CodeIndex
  import opened Ids
  import opened Wrappers

  /** The relations table is unique on these columns. */
  datatype Key = Key(source: Id, target: string, kind: Kind, line: nat, column: nat)

  /** The file, qualified name and language of a row of the symbols table. */
  datatype Owner = Owner(file: Id, name: string, language: Language)

  /** The definitions table, the symbols table, and the relations table with the symbol each row is linked to. */
  datatype World = World(defs: Defs, owners: map<Id, Owner>, rows: map<Key, Option<Id>>)

  /** One relation of one file. */
  datatype Job = Job(file: Id, rel: Relation)

  function LanguageOf(defs: Defs, file: Id): Language {
    if file in defs.languageOf then defs.languageOf[file] else Unsupported
  }

  function WithAnchor(defs: Defs, file: Id, id: Id): Defs {
    AddSymbol(defs, SymbolRow(id, ANCHOR, file))
  }

  // ----- inserting one relation

  /** An import outside every symbol hangs on the file's anchor. */
  predicate AnchorImport(defs: Defs, job: Job) {
    SymbolOf(defs, job.file, job.rel.source).None? && job.rel.source == "" && job.rel.kind == Imports
  }

  /** The file's anchor: the existing one, or the one that newIds provides. */
  function AnchorId(defs: Defs, newIds: map<Id, Id>, file: Id): Id
    requires file in newIds
  {
    var known := SymbolOf(defs, file, ANCHOR);
    if known.Some? then known.value else newIds[file]
  }

  function SourceOf(defs: Defs, newIds: map<Id, Id>, job: Job): Option<Id>
    requires job.file in newIds
  {
    var known := SymbolOf(defs, job.file, job.rel.source);
    if known.Some? then known
    else if AnchorImport(defs, job) then Some(AnchorId(defs, newIds, job.file))
    else None
  }

  function KeyOf(defs: Defs, newIds: map<Id, Id>, job: Job): Option<Key>
    requires job.file in newIds
  {
    var source := SourceOf(defs, newIds, job);
    if source.None? then None
    else Some(Key(source.value, job.rel.target, job.rel.kind, job.rel.line, job.rel.column))
  }

  function TargetOf(defs: Defs, job: Job): Option<Id> {
    Resolve(defs, job.rel, LanguageOf(defs, job.file), job.file)
  }

  /** Creates the file's anchor if the relation needs one and there is none. */
  function Anchored(w: World, newIds: map<Id, Id>, job: Job): World
    requires job.file in newIds
  {
    if AnchorImport(w.defs, job) && SymbolOf(w.defs, job.file, ANCHOR).None? then
      var id := newIds[job.file];
      var row := Owner(job.file, ANCHOR, LanguageOf(w.defs, job.file));
      w.(defs := WithAnchor(w.defs, job.file, id), owners := w.owners[id := row])
    else w
  }

  /** A row that is there already is left alone. */
  function Insert(w: World, newIds: map<Id, Id>, job: Job): World
    requires job.file in newIds
  {
    var key := KeyOf(w.defs, newIds, job);
    if key.None? then w
    else
      var w' := Anchored(w, newIds, job);
      if key.value in w'.rows then w' else w'.(rows := w'.rows[key.value := TargetOf(w'.defs, job)])
  }

  function InsertAll(w: World, newIds: map<Id, Id>, jobs: seq<Job>): World
    requires forall j :: j in jobs ==> j.file in newIds
  {
    if jobs == [] then w
    else Insert(InsertAll(w, newIds, jobs[..|jobs| - 1]), newIds, jobs[|jobs| - 1])
  }

  // ----- what the insertions come to

  /** Every defined name has its row in the symbols table; new ids are not in use and differ. */
  ghost predicate Consistent(w: World, newIds: map<Id, Id>) {
    && (forall file, name :: SymbolOf(w.defs, file, name).Some? ==> Owned(w, file, name))
    && (forall file :: file in newIds ==> newIds[file] !in w.owners)
    && (forall f, g :: f in newIds && g in newIds && newIds[f] == newIds[g] ==> f == g)
  }

  ghost predicate Owned(w: World, file: Id, name: string) {
    var id := SymbolOf(w.defs, file, name);
    id.Some? && id.value in w.owners && w.owners[id.value].file == file && w.owners[id.value].name == name
  }

  /** The symbols of the file have the language it was scanned with, as scans leave them. */
  ghost predicate SameLanguage(w: World, file: Id) {
    forall id :: id in w.owners && w.owners[id].file == file ==> w.owners[id].language == LanguageOf(w.defs, file)
  }

  /** What every extractor delivers: no target ends in the anchor's name, and no source has it. */
  ghost predicate Plain(job: Job) {
    PlainTarget(job.rel) && job.rel.source != ANCHOR
  }

  ghost predicate Jobs(jobs: seq<Job>, newIds: map<Id, Id>) {
    forall j :: j in jobs ==> Plain(j) && j.file in newIds
  }

  /** A row comes from one relation only. */
  lemma KeyDetermines(w: World, newIds: map<Id, Id>, a: Job, b: Job)
    requires Consistent(w, newIds) && Plain(a) && Plain(b) && a.file in newIds && b.file in newIds
    requires KeyOf(w.defs, newIds, a).Some? && KeyOf(w.defs, newIds, a) == KeyOf(w.defs, newIds, b)
    ensures a == b
  {
    assert SymbolOf(w.defs, a.file, a.rel.source).Some? ==> Owned(w, a.file, a.rel.source);
    assert SymbolOf(w.defs, b.file, b.rel.source).Some? ==> Owned(w, b.file, b.rel.source);
    assert SymbolOf(w.defs, a.file, ANCHOR).Some? ==> Owned(w, a.file, ANCHOR);
    assert SymbolOf(w.defs, b.file, ANCHOR).Some? ==> Owned(w, b.file, ANCHOR);
  }

  /** The tables with some anchors added. */
  ghost predicate Grown(w0: World, w: World, newIds: map<Id, Id>) {
    && SameButAnchors(w0.defs, w.defs)
    && (forall file {:trigger AnchorGrown(w0, w, newIds, file)} :: AnchorGrown(w0, w, newIds, file))
    && (forall id :: id in w0.owners ==> id in w.owners && w.owners[id] == w0.owners[id])
  }

  ghost predicate AnchorGrown(w0: World, w: World, newIds: map<Id, Id>, file: Id) {
    var before, now := SymbolOf(w0.defs, file, ANCHOR), SymbolOf(w.defs, file, ANCHOR);
    now == before || (before.None? && file in newIds && now == Some(newIds[file])
                      && newIds[file] in w.owners
                      && w.owners[newIds[file]] == Owner(file, ANCHOR, LanguageOf(w.defs, file)))
  }

  lemma GrownKeys(w0: World, w: World, newIds: map<Id, Id>, job: Job)
    requires Grown(w0, w, newIds) && Plain(job) && job.file in newIds
    ensures KeyOf(w.defs, newIds, job) == KeyOf(w0.defs, newIds, job) && TargetOf(w.defs, job) == TargetOf(w0.defs, job)
  {
    assert AnchorGrown(w0, w, newIds, job.file);
    ResolveIgnoresAnchors(w0.defs, w.defs, job.rel, LanguageOf(w0.defs, job.file), job.file);
  }

  lemma AnchoredGrows(w0: World, w: World, newIds: map<Id, Id>, job: Job)
    requires Grown(w0, w, newIds) && Consistent(w0, newIds) && job.file in newIds
    ensures Grown(w0, Anchored(w, newIds, job), newIds)
  {
    var w' := Anchored(w, newIds, job);
    var id := AnchorId(w.defs, newIds, job.file);
    assert AnchorGrown(w0, w, newIds, job.file);
    forall file, name ensures SymbolOf(w'.defs, file, name)
        == if AnchorImport(w.defs, job) && file == job.file && name == ANCHOR then Some(id)
           else SymbolOf(w.defs, file, name) {
    }
    forall file ensures AnchorGrown(w0, w', newIds, file) {
      assert AnchorGrown(w0, w, newIds, file);
    }
  }

  lemma GrownWhateverRows(w0: World, w: World, w': World, newIds: map<Id, Id>)
    requires Grown(w0, w, newIds) && w'.defs == w.defs && w'.owners == w.owners
    ensures Grown(w0, w', newIds)
  {
    forall file ensures AnchorGrown(w0, w', newIds, file) {
      assert AnchorGrown(w0, w, newIds, file);
    }
  }

  /** Anchors stay once they are there. */
  lemma AnchorsStay(w: World, newIds: map<Id, Id>, job: Job, file: Id)
    requires job.file in newIds
    ensures var w' := Insert(w, newIds, job);
      && (SymbolOf(w.defs, file, ANCHOR).Some? ==> SymbolOf(w'.defs, file, ANCHOR).Some?)
      && (AnchorImport(w.defs, job) ==> SymbolOf(w'.defs, job.file, ANCHOR).Some?)
  {
  }

  /** Some job brings the row. */
  ghost predicate Brought(w0: World, newIds: map<Id, Id>, jobs: seq<Job>, key: Key)
    requires Jobs(jobs, newIds)
  {
    exists j :: j in jobs && KeyOf(w0.defs, newIds, j) == Some(key)
  }

  /**
    The relations table after the jobs: the old rows as they were, and one row for each key, linked as the first table
    says.
   */
  ghost predicate Exact(w0: World, w: World, newIds: map<Id, Id>, jobs: seq<Job>)
    requires Jobs(jobs, newIds)
  {
    && Grown(w0, w, newIds)
    && (forall key :: key in w.rows <==> key in w0.rows || Brought(w0, newIds, jobs, key))
    && (forall key :: key in w0.rows && key in w.rows ==> w.rows[key] == w0.rows[key])
    && (forall j {:trigger j in jobs} :: j in jobs ==> RowRight(w0, w, newIds, j))
  }

  ghost predicate RowRight(w0: World, w: World, newIds: map<Id, Id>, job: Job)
    requires job.file in newIds
  {
    var key := KeyOf(w0.defs, newIds, job);
    && (key.Some? && key.value !in w0.rows ==> key.value in w.rows && w.rows[key.value] == TargetOf(w0.defs, job))
    && (AnchorImport(w0.defs, job) ==> SymbolOf(w.defs, job.file, ANCHOR).Some?)
  }

  lemma {:induction false} InsertAllExact(w0: World, newIds: map<Id, Id>, jobs: seq<Job>)
    requires Consistent(w0, newIds) && Jobs(jobs, newIds)
    ensures Exact(w0, InsertAll(w0, newIds, jobs), newIds, jobs)
  {
    if jobs == [] {
      forall file ensures AnchorGrown(w0, w0, newIds, file) {
      }
      forall key ensures !Brought(w0, newIds, jobs, key) {
      }
    } else {
      var n := |jobs| - 1;
      InsertAllExact(w0, newIds, jobs[..n]);
      assert jobs == jobs[..n] + [jobs[n]];
      OneMoreJob(w0, InsertAll(w0, newIds, jobs[..n]), newIds, jobs[..n], jobs[n]);
    }
  }

  lemma OneMoreJob(w0: World, w: World, newIds: map<Id, Id>, jobs: seq<Job>, job: Job)
    requires Consistent(w0, newIds) && Jobs(jobs, newIds) && Plain(job) && job.file in newIds
        && Exact(w0, w, newIds, jobs)
    ensures Jobs(jobs + [job], newIds) && Exact(w0, Insert(w, newIds, job), newIds, jobs + [job])
  {
    var w' := Insert(w, newIds, job);
    var key := KeyOf(w.defs, newIds, job);
    GrownKeys(w0, w, newIds, job);
    AnchoredGrows(w0, w, newIds, job);
    GrownKeys(w0, Anchored(w, newIds, job), newIds, job);
    GrownWhateverRows(w0, if key.Some? then Anchored(w, newIds, job) else w, w', newIds);
    forall k ensures Brought(w0, newIds, jobs + [job], k) <==> Brought(w0, newIds, jobs, k) || key == Some(k) {
      BroughtByOneMore(w0, newIds, jobs, job, k);
    }
    forall j | j in jobs + [job] ensures RowRight(w0, w', newIds, j) {
      AnchorsStay(w, newIds, job, j.file);
      if j in jobs {
        assert RowRight(w0, w, newIds, j);
      } else if key.Some? && key.value in w.rows && key.value !in w0.rows {
        var earlier :| earlier in jobs && KeyOf(w0.defs, newIds, earlier) == key;
        KeyDetermines(w0, newIds, earlier, job);
      }
    }
  }

  lemma BroughtByOneMore(w0: World, newIds: map<Id, Id>, jobs: seq<Job>, job: Job, key: Key)
    requires Jobs(jobs, newIds) && Plain(job) && job.file in newIds
    ensures Jobs(jobs + [job], newIds)
    ensures Brought(w0, newIds, jobs + [job], key)
        <==> Brought(w0, newIds, jobs, key) || KeyOf(w0.defs, newIds, job) == Some(key)
  {
    if Brought(w0, newIds, jobs, key) {
      var j :| j in jobs && KeyOf(w0.defs, newIds, j) == Some(key);
      assert j in jobs + [job];
    }
    assert job in jobs + [job];
  }

  /** The same relations in any order, and any number of times, give the same rows. */
  lemma OrderIrrelevant(w: World, newIds: map<Id, Id>, a: seq<Job>, b: seq<Job>)
    requires Consistent(w, newIds) && Jobs(a, newIds) && Jobs(b, newIds) && forall j :: j in a <==> j in b
    ensures InsertAll(w, newIds, a).rows == InsertAll(w, newIds, b).rows
  {
    InsertAllExact(w, newIds, a);
    InsertAllExact(w, newIds, b);
    var p, q := InsertAll(w, newIds, a).rows, InsertAll(w, newIds, b).rows;
    forall key ensures key in p <==> key in q {
      SameBrought(w, newIds, a, b, key);
      SameBrought(w, newIds, b, a, key);
    }
    forall key | key in p ensures p[key] == q[key] {
      if key !in w.rows {
        var j :| j in a && KeyOf(w.defs, newIds, j) == Some(key);
        assert RowRight(w, InsertAll(w, newIds, a), newIds, j) && RowRight(w, InsertAll(w, newIds, b), newIds, j);
      }
    }
  }

  lemma SameBrought(w: World, newIds: map<Id, Id>, a: seq<Job>, b: seq<Job>, key: Key)
    requires Jobs(a, newIds) && Jobs(b, newIds) && forall j :: j in a ==> j in b
    ensures Brought(w, newIds, a, key) ==> Brought(w, newIds, b, key)
  {
    if Brought(w, newIds, a, key) {
      var j :| j in a && KeyOf(w.defs, newIds, j) == Some(key);
      assert j in b;
    }
  }

  // ----- looking unresolved rows up again

  /** What the rules find for a row, asked with the name its source has in the symbols table. */
  function Looked(w: World, key: Key): Option<Id>
    requires key.source in w.owners
  {
    var owner := w.owners[key.source];
    Resolve(w.defs, Relation(key.target, key.kind, key.line, key.column, owner.name), owner.language, owner.file)
  }

  function AfterLook(w: World, key: Key): Option<Id>
    requires key in w.rows
  {
    if w.rows[key].None? && key.source in w.owners then Looked(w, key) else w.rows[key]
  }

  function Reresolved(w: World): World {
    w.(rows := map key | key in w.rows :: AfterLook(w, key))
  }

  /** The source of a row that a relation brings is a symbol of its file: the one it names, or the anchor. */
  lemma BroughtOwned(w0: World, w: World, newIds: map<Id, Id>, jobs: seq<Job>, job: Job, key: Key)
    requires Consistent(w0, newIds) && Jobs(jobs, newIds) && Exact(w0, w, newIds, jobs)
    requires job in jobs && KeyOf(w0.defs, newIds, job) == Some(key)
    ensures key.source in w.owners
    ensures var owner := w.owners[key.source];
      && owner.file == job.file
      && owner.name == (if SymbolOf(w0.defs, job.file, job.rel.source).Some? then job.rel.source else ANCHOR)
      && (SameLanguage(w0, job.file) ==> owner.language == LanguageOf(w0.defs, job.file))
  {
    assert Plain(job) && job.file in newIds;
    assert RowRight(w0, w, newIds, job) && AnchorGrown(w0, w, newIds, job.file);
    if SymbolOf(w0.defs, job.file, job.rel.source).Some? {
      assert Owned(w0, job.file, job.rel.source);
    } else {
      assert SymbolOf(w0.defs, job.file, ANCHOR).Some? ==> Owned(w0, job.file, ANCHOR);
    }
  }

  /** Looking a row up again finds what its relation was resolved to. */
  lemma LookedAgain(w0: World, w: World, newIds: map<Id, Id>, jobs: seq<Job>, job: Job, key: Key)
    requires Consistent(w0, newIds) && Jobs(jobs, newIds) && Exact(w0, w, newIds, jobs)
    requires job in jobs && KeyOf(w0.defs, newIds, job) == Some(key) && SameLanguage(w0, job.file)
    ensures key.source in w.owners && Looked(w, key) == TargetOf(w0.defs, job)
  {
    BroughtOwned(w0, w, newIds, jobs, job, key);
    GrownKeys(w0, w, newIds, job);
    if SymbolOf(w0.defs, job.file, job.rel.source).None? {
      ResolveFromAnchor(w.defs, job.rel, LanguageOf(w.defs, job.file), job.file);
    }
  }

  /**
    On a first scan the incremental pass writes the rows that the full pass writes, in whatever order
    the two come by the files; its second look at unresolved rows finds nothing new.
   */
  lemma ColdIncrementalIsFull(w0: World, newIds: map<Id, Id>, full: seq<Job>, extracted: seq<Job>)
    requires Consistent(w0, newIds) && w0.rows == map[] && Jobs(full, newIds) && Jobs(extracted, newIds)
    requires forall j :: j in extracted ==> SameLanguage(w0, j.file)
    requires forall j :: j in full <==> j in extracted
    ensures Reresolved(InsertAll(w0, newIds, extracted)).rows == InsertAll(w0, newIds, full).rows
  {
    var w := InsertAll(w0, newIds, extracted);
    OrderIrrelevant(w0, newIds, full, extracted);
    InsertAllExact(w0, newIds, extracted);
    forall key | key in w.rows ensures AfterLook(w, key) == w.rows[key] {
      assert Brought(w0, newIds, extracted, key);
      var j :| j in extracted && KeyOf(w0.defs, newIds, j) == Some(key);
      LookedAgain(w0, w, newIds, extracted, j, key);
      assert RowRight(w0, w, newIds, j);
    }
  }

  /** Once looked up, rows stay as they are, also when the table has been built anew. */
  lemma SecondLookChangesNothing(w: World, rebuilt: Defs)
    requires SameButAnchors(w.defs, rebuilt)
    requires forall key :: key in w.rows ==> PlainTarget(Relation(key.target, key.kind, key.line, key.column, ""))
    ensures var once := Reresolved(w); Reresolved(World(rebuilt, once.owners, once.rows)).rows == once.rows
  {
    var once := Reresolved(w);
    var again := World(rebuilt, once.owners, once.rows);
    forall key | key in once.rows ensures AfterLook(again, key) == once.rows[key] {
      if once.rows[key].None? && key.source in once.owners {
        var owner := w.owners[key.source];
        var rel := Relation(key.target, key.kind, key.line, key.column, owner.name);
        assert PlainTarget(Relation(key.target, key.kind, key.line, key.column, ""));
        ResolveIgnoresAnchors(w.defs, rebuilt, rel, owner.language, owner.file);
      }
    }
  }

  // ----- rows whose targets were deleted

  /** The rows that lost their target, back as unresolved ones. */
  function Restored(w: World, orphans: set<Key>): World {
    w.(rows := map key | key in w.rows.Keys + orphans :: if key in w.rows then w.rows[key] else None)
  }

  /** Putting a row back needs its source, which a change to the source's file has taken away. */
  predicate RestoreFails(w: World, orphans: set<Key>) {
    exists key :: key in orphans && key !in w.rows && key.source !in w.owners
  }

  /** The incremental pass, when it gets to its end. */
  function Incremental(w: World, newIds: map<Id, Id>, jobs: seq<Job>, orphans: set<Key>): World
    requires forall j :: j in jobs ==> j.file in newIds
  {
    Reresolved(Restored(InsertAll(w, newIds, jobs), orphans))
  }

  /** What any incremental pass leaves: links that were there stay, and what is still unresolved cannot be resolved. */
  lemma IncrementalExact(w: World, newIds: map<Id, Id>, jobs: seq<Job>, orphans: set<Key>)
    requires Consistent(w, newIds) && Jobs(jobs, newIds)
    ensures var after := Incremental(w, newIds, jobs, orphans);
      && (forall key :: key in after.rows <==> key in w.rows || key in orphans || Brought(w, newIds, jobs, key))
      && (forall key :: key in w.rows && w.rows[key].Some? ==> key in after.rows && after.rows[key] == w.rows[key])
      && (forall key ::
         key in after.rows && after.rows[key].None? && key.source in after.owners ==> Looked(after, key).None?)
  {
    var inserted := InsertAll(w, newIds, jobs);
    InsertAllExact(w, newIds, jobs);
    var restored := Restored(inserted, orphans);
    var after := Reresolved(restored);
    forall key | key in after.rows && after.rows[key].None? && key.source in after.owners
        ensures Looked(after, key).None? {
      assert Looked(after, key) == Looked(restored, key);
    }
    forall key | key in w.rows && w.rows[key].Some? ensures key in after.rows && after.rows[key] == w.rows[key] {
      assert key in inserted.rows && inserted.rows[key] == w.rows[key];
    }
  }

  // ----- the passes

  function JobsOfFile(file: Id, rels: seq<Relation>): seq<Job> {
    seq(|rels|, i requires 0 <= i < |rels| => Job(file, rels[i]))
  }

  /** The relations of the files, file by file. */
  function JobsOf(files: seq<Id>, input: map<Id, seq<Relation>>): seq<Job> {
    if files == [] then []
    else
      var f := files[|files| - 1];
      JobsOf(files[..|files| - 1], input) + if f in input then JobsOfFile(f, input[f]) else []
  }

  lemma {:induction false} JobsAreOfFiles(files: seq<Id>, input: map<Id, seq<Relation>>, job: Job)
    ensures job in JobsOf(files, input) <==> job.file in files && job.file in input && job.rel in input[job.file]
  {
    if files != [] {
      var f := files[|files| - 1];
      JobsAreOfFiles(files[..|files| - 1], input, job);
      if f in input && job.file == f && job.rel in input[f] {
        var k :| 0 <= k < |input[f]| && input[f][k] == job.rel;
        assert JobsOfFile(f, input[f])[k] == job;
      }
    }
  }

  /** On a first scan, with the same relations extracted, the two passes agree whatever order they take the files in. */
  lemma ColdScan(w0: World, newIds: map<Id, Id>, scanned: seq<Id>, parsed: seq<Id>, input: map<Id, seq<Relation>>)
    requires Consistent(w0, newIds) && w0.rows == map[] && forall f :: f in scanned <==> f in parsed
    requires forall f :: f in scanned ==> SameLanguage(w0, f)
    requires forall f :: f in scanned ==>
      f in newIds && forall rel :: f in input && rel in input[f] ==> Plain(Job(f, rel))
    ensures Jobs(JobsOf(scanned, input), newIds) && Jobs(JobsOf(parsed, input), newIds)
    ensures Incremental(w0, newIds, JobsOf(parsed, input), {}).rows
        == InsertAll(w0, newIds, JobsOf(scanned, input)).rows
  {
    var full, extracted := JobsOf(scanned, input), JobsOf(parsed, input);
    SameJobs(newIds, scanned, parsed, input);
    forall j | j in extracted ensures SameLanguage(w0, j.file) {
      JobsAreOfFiles(parsed, input, j);
    }
    ColdIncrementalIsFull(w0, newIds, full, extracted);
    RestoredNothing(InsertAll(w0, newIds, extracted));
  }

  lemma SameJobs(newIds: map<Id, Id>, scanned: seq<Id>, parsed: seq<Id>, input: map<Id, seq<Relation>>)
    requires forall f :: f in scanned <==> f in parsed
    requires forall f :: f in scanned ==>
      f in newIds && forall rel :: f in input && rel in input[f] ==> Plain(Job(f, rel))
    ensures Jobs(JobsOf(scanned, input), newIds) && Jobs(JobsOf(parsed, input), newIds)
    ensures forall j :: j in JobsOf(scanned, input) <==> j in JobsOf(parsed, input)
  {
    forall j ensures j in JobsOf(scanned, input) <==> j in JobsOf(parsed, input) {
      JobsAreOfFiles(scanned, input, j);
      JobsAreOfFiles(parsed, input, j);
    }
    forall j | j in JobsOf(scanned, input) ensures Plain(j) && j.file in newIds {
      JobsAreOfFiles(scanned, input, j);
    }
  }

  lemma RestoredNothing(w: World)
    ensures Restored(w, {}) == w
  {
    assert Restored(w, {}).rows == w.rows;
  }

  lemma {:induction false} InsertMore(w: World, newIds: map<Id, Id>, a: seq<Job>, b: seq<Job>)
    requires forall j :: j in a + b ==> j.file in newIds
    requires forall j :: j in a ==> j in a + b
    requires forall j :: j in b ==> j in a + b
    ensures InsertAll(w, newIds, a + b) == InsertAll(InsertAll(w, newIds, a), newIds, b)
    decreases |b|
  {
    if b == [] {
      assert a + b == a;
    } else {
      var n := |b| - 1;
      assert (a + b)[..|a| + n] == a + b[..n] && (a + b)[|a| + n] == b[n];
      forall j | j in a + b[..n] ensures j.file in newIds {
        assert j in a + b;
      }
      forall j | j in b[..n] ensures j in a + b[..n] {
      }
      InsertMore(w, newIds, a, b[..n]);
    }
  }

  class Resolver {
    var defs: Defs
    var owners: map<Id, Owner>
    var rows: map<Key, Option<Id>>
    var siblings: map<Id, seq<Id>>
    const newIds: map<Id, Id>

    ghost function Value(): World
      reads this
    {
      World(defs, owners, rows)
    }

    /** Remembered siblings are what looking them up would give. */
    ghost predicate CacheRight()
      reads this
    {
      forall file :: file in siblings ==> siblings[file] == Siblings(defs, file)
    }

    constructor (defs: Defs, owners: map<Id, Owner>, rows: map<Key, Option<Id>>, newIds: map<Id, Id>)
      ensures Value() == World(defs, owners, rows) && this.newIds == newIds && CacheRight()
    {
      this.defs, this.owners, this.rows, this.newIds, siblings := defs, owners, rows, newIds, map[];
    }

    method SiblingsInSameDirectory(file: Id) returns (others: seq<Id>)
      requires CacheRight()
      modifies this`siblings
      ensures others == Siblings(defs, file) && CacheRight()
    {
      if file in siblings {
        return siblings[file];
      }
      if file !in defs.dirOf {
        siblings := siblings[file := []];
        return [];
      }
      others := [];
      if defs.dirOf[file] in defs.filesInDir {
        var files := defs.filesInDir[defs.dirOf[file]];
        for k := 0 to |files|
          invariant others == Others(files[..k], file)
        {
          assert files[..k + 1][..k] == files[..k];
          if files[k] != file {
            others := others + [files[k]];
          }
        }
        assert files[..|files|] == files;
      }
      siblings := siblings[file := others];
    }

    method LookupInPackage(rel: Relation, file: Id) returns (target: Option<Id>)
      requires CacheRight()
      modifies this`siblings
      ensures target == ResolvePackage(defs, rel, file) && CacheRight()
    {
      target := SymbolOf(defs, file, rel.target);
      if target.Some? || rel.kind != Calls {
        return;
      }
      var others := SiblingsInSameDirectory(file);
      var k := 0;
      while k < |others|
        invariant 0 <= k <= |others| && target.None?
        invariant FirstDefining(defs, others[k..], rel.target) == FirstDefining(defs, others, rel.target)
      {
        target := SymbolOf(defs, others[k], rel.target);
        if target.Some? {
          return;
        }
        k := k + 1;
      }
    }

    method Lookup(rel: Relation, language: Language, file: Id) returns (target: Option<Id>)
      requires CacheRight()
      modifies this`siblings
      ensures target == Resolve(defs, rel, language, file) && CacheRight()
    {
      if language == Go || language == Java {
        target := LookupInPackage(rel, file);
      } else {
        target := Resolve(defs, rel, language, file);
      }
    }

    /** The file's anchor, created if there is none. */
    method GetOrCreateAnchor(job: Job) returns (id: Id)
      requires CacheRight() && job.file in newIds && AnchorImport(defs, job)
      modifies this`defs, this`owners
      ensures id == AnchorId(old(defs), newIds, job.file) && Value() == Anchored(old(Value()), newIds, job)
          && CacheRight()
    {
      var known := SymbolOf(defs, job.file, ANCHOR);
      if known.Some? {
        return known.value;
      }
      id := newIds[job.file];
      owners := owners[id := Owner(job.file, ANCHOR, LanguageOf(defs, job.file))];
      defs := WithAnchor(defs, job.file, id);
    }

    method InsertRelation(job: Job)
      requires CacheRight() && job.file in newIds
      modifies this
      ensures Value() == Insert(old(Value()), newIds, job) && CacheRight()
    {
      var source := SymbolOf(defs, job.file, job.rel.source);
      if source.None? {
        if job.rel.source == "" && job.rel.kind == Imports {
          var id := GetOrCreateAnchor(job);
          source := Some(id);
        } else {
          return;
        }
      }
      var target := Lookup(job.rel, LanguageOf(defs, job.file), job.file);
      var key := Key(source.value, job.rel.target, job.rel.kind, job.rel.line, job.rel.column);
      if key !in rows {
        rows := rows[key := target];
      }
    }

    method InsertFile(file: Id, rels: seq<Relation>)
      requires CacheRight() && file in newIds
      modifies this
      ensures forall j :: j in JobsOfFile(file, rels) ==> j.file in newIds
      ensures Value() == InsertAll(old(Value()), newIds, JobsOfFile(file, rels)) && CacheRight()
    {
      ghost var w, jobs := Value(), JobsOfFile(file, rels);
      for k := 0 to |rels|
        invariant CacheRight() && Value() == InsertAll(w, newIds, jobs[..k])
      {
        assert jobs[..k + 1][..k] == jobs[..k];
        InsertRelation(Job(file, rels[k]));
      }
      assert jobs[..|rels|] == jobs;
    }

    /** All files in the given order. */
    method InsertFiles(files: seq<Id>, input: map<Id, seq<Relation>>)
      requires CacheRight() && forall f :: f in files ==> f in newIds
      modifies this
      ensures forall j :: j in JobsOf(files, input) ==> j.file in newIds
      ensures Value() == InsertAll(old(Value()), newIds, JobsOf(files, input)) && CacheRight()
    {
      ghost var w := Value();
      forall j | j in JobsOf(files, input) ensures j.file in newIds {
        JobsAreOfFiles(files, input, j);
      }
      for n := 0 to |files|
        invariant forall j :: j in JobsOf(files[..n], input) ==> j.file in newIds
        invariant CacheRight() && Value() == InsertAll(w, newIds, JobsOf(files[..n], input))
      {
        var f := files[n];
        assert files[..n + 1][..n] == files[..n];
        forall j | j in JobsOf(files[..n + 1], input) ensures j.file in newIds {
          JobsAreOfFiles(files[..n + 1], input, j);
        }
        if f in input {
          InsertFile(f, input[f]);
          InsertMore(w, newIds, JobsOf(files[..n], input), JobsOfFile(f, input[f]));
        } else {
          assert JobsOf(files[..n], input) + [] == JobsOf(files[..n], input);
        }
      }
      assert files[..|files|] == files;
    }

    /** Looks every unresolved row up again. */
    method ResolveAgain()
      requires CacheRight()
      modifies this`rows, this`siblings
      ensures Value() == Reresolved(old(Value())) && CacheRight()
    {
      ghost var w := Value();
      var rest := set key | key in rows && rows[key].None?;
      while rest != {}
        invariant CacheRight() && rest <= rows.Keys == w.rows.Keys
        invariant forall key :: key in rows ==> rows[key] == if key in rest then w.rows[key] else AfterLook(w, key)
        invariant forall key :: key in rest ==> w.rows[key].None?
        decreases |rest|
      {
        var key :| key in rest;
        rest := rest - {key};
        if key.source in owners {
          var owner := owners[key.source];
          var target := Lookup(Relation(key.target, key.kind, key.line, key.column, owner.name),
                               owner.language, owner.file);
          if target.Some? {
            rows := rows[key := target];
          }
        }
      }
      assert rows == Reresolved(w).rows;
    }

    /** The incremental pass; false if a row that lost its target cannot be put back. */
    method ResolveIncremental(files: seq<Id>, extracted: map<Id, seq<Relation>>, orphans: set<Key>) returns (ok: bool)
      requires CacheRight() && forall f :: f in files ==> f in newIds
      modifies this
      ensures forall j :: j in JobsOf(files, extracted) ==> j.file in newIds
      ensures ok <==> !RestoreFails(InsertAll(old(Value()), newIds, JobsOf(files, extracted)), orphans)
      ensures ok ==> Value() == Incremental(old(Value()), newIds, JobsOf(files, extracted), orphans)
      ensures !ok ==> Value() == InsertAll(old(Value()), newIds, JobsOf(files, extracted))
    {
      InsertFiles(files, extracted);
      if key :| key in orphans && key !in rows && key.source !in owners {
        return false;
      }
      rows := map key | key in rows.Keys + orphans :: if key in rows then rows[key] else None;
      ResolveAgain();
      return true;
    }
  }
}
