/** The rows of the relations table, one by one: where they come from, and what they are linked to. */
module RelationRows {
  import opened CodeIndex
  import opened CodeResolve
  import opened Ids
  import opened Wrappers

  /** The row a relation has if it starts at this symbol. */
  ghost predicate RowFrom(w: World, source: Id, rel: Relation, target: Option<Id>) {
    var key := Key(source, rel.target, rel.kind, rel.line, rel.column);
    key in w.rows && w.rows[key] == target
  }

  /** The file was scanned with this language, or is unknown. */
  ghost predicate Has(defs: Defs, file: Id, language: Language) {
    if file in defs.languageOf then language == defs.languageOf[file] else language == Unsupported
  }

  /**
    A relation that names a symbol of its file starts there; an import that names nothing starts at the file's anchor,
    the one it has or a new one.  A row that was there stays, and a new one is linked as the rules of the language say.
   */
  lemma InsertedRow(w0: World, newIds: map<Id, Id>, jobs: seq<Job>, job: Job, language: Language, source: Id)
    requires Consistent(w0, newIds) && Jobs(jobs, newIds) && job in jobs && Has(w0.defs, job.file, language)
    requires || SymbolOf(w0.defs, job.file, job.rel.source) == Some(source)
             || (&& SymbolOf(w0.defs, job.file, job.rel.source) == None
                 && job.rel.source == "" && job.rel.kind == Imports
                 && (SymbolOf(w0.defs, job.file, "<module>") == Some(source)
                     || (SymbolOf(w0.defs, job.file, "<module>") == None && source == newIds[job.file])))
    ensures var w := InsertAll(w0, newIds, jobs);
      var key := Key(source, job.rel.target, job.rel.kind, job.rel.line, job.rel.column);
      if key in w0.rows then RowFrom(w, source, job.rel, w0.rows[key])
      else RowFrom(w, source, job.rel, Resolve(w0.defs, job.rel, language, job.file))
  {
    InsertAllExact(w0, newIds, jobs);
    var w := InsertAll(w0, newIds, jobs);
    var key := Key(source, job.rel.target, job.rel.kind, job.rel.line, job.rel.column);
    assert KeyOf(w0.defs, newIds, job) == Some(key);
    assert RowRight(w0, w, newIds, job);
    assert Brought(w0, newIds, jobs, key);
  }

  /** Any other relation brings no row: the table has the old rows and those that start as described. */
  lemma NoOtherRows(w0: World, newIds: map<Id, Id>, jobs: seq<Job>, key: Key) returns (job: Job)
    requires Consistent(w0, newIds) && Jobs(jobs, newIds) && key !in w0.rows
    requires key in InsertAll(w0, newIds, jobs).rows
    ensures job in jobs && job.file in newIds
    ensures key == Key(key.source, job.rel.target, job.rel.kind, job.rel.line, job.rel.column)
    ensures SymbolOf(w0.defs, job.file, job.rel.source) != Some(key.source) ==>
      && SymbolOf(w0.defs, job.file, job.rel.source) == None && job.rel.source == "" && job.rel.kind == Imports
      && (SymbolOf(w0.defs, job.file, "<module>") == Some(key.source)
          || (SymbolOf(w0.defs, job.file, "<module>") == None && key.source == newIds[job.file]))
  {
    InsertAllExact(w0, newIds, jobs);
    assert Brought(w0, newIds, jobs, key);
    job :| job in jobs && KeyOf(w0.defs, newIds, job) == Some(key);
  }

  /** A new anchor is a symbol of its file, under the anchor's name and with the file's language. */
  lemma AnchorIs(w: World, newIds: map<Id, Id>, job: Job, language: Language)
    requires job.file in newIds && Has(w.defs, job.file, language)
    requires SymbolOf(w.defs, job.file, job.rel.source) == None && job.rel.source == "" && job.rel.kind == Imports
    requires SymbolOf(w.defs, job.file, "<module>") == None
    ensures var after := Insert(w, newIds, job);
      && newIds[job.file] in after.owners && after.owners[newIds[job.file]] == Owner(job.file, "<module>", language)
      && SymbolOf(after.defs, job.file, "<module>") == Some(newIds[job.file])
      && forall id :: id != newIds[job.file] ==>
           (id in after.owners <==> id in w.owners) && (id in w.owners ==> after.owners[id] == w.owners[id])
  {
  }

  /**
    After an incremental pass a row has the link it had, or, without one, what the rules find for its source's name,
    language and file; a row put aside is back.
   */
  lemma IncrementalRow(w: World, newIds: map<Id, Id>, jobs: seq<Job>, orphans: set<Key>, key: Key)
    requires Jobs(jobs, newIds)
    ensures var before, after := InsertAll(w, newIds, jobs), Incremental(w, newIds, jobs, orphans);
      && (key in after.rows <==> key in before.rows || key in orphans)
      && (key in before.rows && before.rows[key].Some? ==> after.rows[key] == before.rows[key])
      && (key in after.rows && !(key in before.rows && before.rows[key].Some?) ==>
            after.rows[key]
            == if key.source in before.owners then Found(before, key, before.owners[key.source]) else None)
      && after.owners == before.owners && after.defs == before.defs
  {
  }

  ghost function Found(w: World, key: Key, source: Owner): Option<Id> {
    Resolve(w.defs, Relation(key.target, key.kind, key.line, key.column, source.name), source.language, source.file)
  }
}
