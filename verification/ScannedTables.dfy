/** What scanning one file leaves in every table. */
module ScannedTables {
  import opened CodeIndex
  import opened CodeRescan
  import opened CodeResolve
  import opened Ids
  import opened Wrappers

  /** Nothing happens to a file with the contents scanned last, unless forced, or whose symbols cannot be extracted. */
  ghost predicate LeftAlone(db: Db, src: Source, force: bool) {
    || src.symbols == None
    || (!force && exists file ::
          src.version.path in db.scans && db.scans[src.version.path] == Scan(src.version.hash, file))
  }

  lemma LeftAloneIff(db: Db, src: Source, force: bool)
    ensures LeftAlone(db, src, force) <==> Skipped(db, src, force)
    ensures LeftAlone(db, src, force) ==> Scanned(db, src, force) == db
  {
    if Skipped(db, src, force) && src.symbols.Some? {
      assert db.scans[src.version.path] == Scan(src.version.hash, db.scans[src.version.path].file);
    }
  }

  /** The memory that stands for the contents: the old one, or the new one if they are new. */
  ghost predicate StandsFor(db: Db, src: Source, file: Id) {
    if src.version in db.files then file == db.files[src.version] else file == src.newFile
  }

  ghost predicate SymbolOfFile(db: Db, file: Id, id: Id) {
    id in db.owners && db.owners[id].file == file
  }

  /** The files and scans tables gain one entry each, and the rest stays. */
  lemma FilesAfter(db: Db, src: Source, force: bool, file: Id)
    requires !LeftAlone(db, src, force) && StandsFor(db, src, file)
    ensures var after := Scanned(db, src, force);
      && src.version in after.files && after.files[src.version] == file
      && src.version.path in after.scans && after.scans[src.version.path] == Scan(src.version.hash, file)
      && (forall v :: v != src.version ==>
            (v in after.files <==> v in db.files) && (v in db.files ==> after.files[v] == db.files[v]))
      && (forall p :: p != src.version.path ==>
            (p in after.scans <==> p in db.scans) && (p in db.scans ==> after.scans[p] == db.scans[p]))
  {
    LeftAloneIff(db, src, force);
  }

  /** The symbols extracted replace those of the file. */
  lemma SymbolsAfter(db: Db, src: Source, force: bool, file: Id, id: Id)
    requires !LeftAlone(db, src, force) && StandsFor(db, src, file)
    ensures var after := Scanned(db, src, force);
      if id in src.symbols.value
      then id in after.owners && after.owners[id] == Owner(file, src.symbols.value[id], src.language)
      else (id in after.owners <==> id in db.owners && !SymbolOfFile(db, file, id))
           && (id in after.owners ==> after.owners[id] == db.owners[id])
  {
    LeftAloneIff(db, src, force);
  }

  /** Relations from and to the old symbols of the file are gone; those that led to them have been put aside. */
  lemma RowsAfter(db: Db, src: Source, force: bool, file: Id, key: Key)
    requires !LeftAlone(db, src, force) && StandsFor(db, src, file)
    ensures var after := Scanned(db, src, force);
      && (key in after.rows <==>
            && key in db.rows && !SymbolOfFile(db, file, key.source)
            && forall t :: db.rows[key] == Some(t) ==> !SymbolOfFile(db, file, t))
      && (key in after.rows ==> after.rows[key] == db.rows[key])
      && (key in after.orphans <==>
            key in db.orphans || (key in db.rows && exists t :: db.rows[key] == Some(t) && SymbolOfFile(db, file, t)))
  {
    LeftAloneIff(db, src, force);
    assert FileOf(db, src) == file;
    forall id ensures id in SymbolsOf(db.owners, file) <==> SymbolOfFile(db, file, id) {
    }
    if key in db.rows && db.rows[key].Some? {
      assert db.rows[key] == Some(db.rows[key].value);
    }
  }

  /** The same file again, unforced: nothing happens. */
  lemma ScanAgainDoesNothing(db: Db, src: Source, force: bool)
    ensures var after := Scanned(db, src, force); Scanned(after, src, false) == after
  {
  }
}
