/** What stands in the definitions table: every symbol, and every Python file under its module path. */
module TableEntries {
  import opened CodeIndex
  import opened Ids
  import opened Text
  import opened Wrappers

  // ----- symbols

  /** The last row with this name and file, if there is one. */
  ghost predicate LastRow(rows: seq<SymbolRow>, k: nat, file: Id, name: string) {
    && k < |rows| && rows[k].file == file && rows[k].name == name
    && forall j :: k < j < |rows| ==> !(rows[j].file == file && rows[j].name == name)
  }

  ghost predicate NoRow(rows: seq<SymbolRow>, file: Id, name: string) {
    forall j :: 0 <= j < |rows| ==> !(rows[j].file == file && rows[j].name == name)
  }

  lemma OneSymbol(defs: Defs, row: SymbolRow, file: Id, name: string)
    ensures SymbolOf(AddSymbol(defs, row), file, name)
         == if row.file == file && row.name == name then Some(row.id) else SymbolOf(defs, file, name)
  {
  }

  lemma {:induction false} SymbolsInTable(rows: seq<SymbolRow>, k: nat, file: Id, name: string)
    ensures LastRow(rows, k, file, name) ==> SymbolOf(WithSymbols(rows), file, name) == Some(rows[k].id)
    ensures NoRow(rows, file, name) ==> SymbolOf(WithSymbols(rows), file, name) == None
    decreases |rows|
  {
    if rows != [] {
      var n := |rows| - 1;
      OneSymbol(WithSymbols(rows[..n]), rows[n], file, name);
      SymbolsInTable(rows[..n], k, file, name);
      assert k < n && LastRow(rows, k, file, name) ==> LastRow(rows[..n], k, file, name);
    }
  }

  lemma {:induction false} ScansKeepSymbols(defs: Defs, scans: seq<ScanRow>)
    ensures WithScans(defs, scans).symbols == defs.symbols
    decreases |scans|
  {
    if scans != [] {
      ScansKeepSymbols(defs, scans[..|scans| - 1]);
    }
  }

  /** The table gives a name of a file the symbol of its last row, and no other names. */
  lemma DefinitionsHave(rows: seq<SymbolRow>, scans: seq<ScanRow>, k: nat, file: Id, name: string)
    ensures LastRow(rows, k, file, name) ==> SymbolOf(Definitions(rows, scans), file, name) == Some(rows[k].id)
    ensures NoRow(rows, file, name) ==> SymbolOf(Definitions(rows, scans), file, name) == None
  {
    SymbolsInTable(rows, k, file, name);
    ScansKeepSymbols(WithSymbols(rows), scans);
  }

  // ----- Python modules

  /** The components joined by dots. */
  lemma DottedIs(a: string, rest: Path)
    ensures Dotted([a]) == a && Dotted([]) == ""
    ensures rest != [] ==> Dotted([a] + rest) == a + "." + Dotted(rest)
  {
    assert rest != [] ==> ([a] + rest)[1..] == rest;
  }

  /** dirs/name.py is the module dirs.name, dirs/__init__.py the module dirs, if there are any. */
  lemma ModuleIs(dirs: Path, name: string)
    requires name != ""
    ensures PythonModule(dirs + [name + ".py"])
         == if name != "__init__" then Some(Dotted(dirs + [name])) else if dirs != [] then Some(Dotted(dirs)) else None
  {
    var p, file := dirs + [name + ".py"], name + ".py";
    assert p[|p| - 1] == file && p[..|p| - 1] == dirs;
    assert file[..|file| - 3] == name && IsAt(file, ".py", |file| - 3);
  }

  /** No other file name is that of a module. */
  lemma OnlyPython(p: Path)
    ensures PythonModule(p).Some? ==>
      p != [] && |p[|p| - 1]| > 3 && p[|p| - 1][|p[|p| - 1]| - 3..] == ".py"
  {
    if PythonModule(p).Some? {
      var file := p[|p| - 1];
      assert forall k :: 0 <= k < 3 ==> file[|file| - 3 + k] == ".py"[k];
    }
  }

  ghost predicate IsModule(scan: ScanRow, mod: string) {
    scan.path.Some? && scan.language == Py && PythonModule(scan.path.value) == Some(mod)
  }

  /** A module path leads to the last scanned file that is that module. */
  lemma {:induction false} ModulesExact(defs: Defs, scans: seq<ScanRow>, k: nat, mod: string)
    requires k < |scans| && IsModule(scans[k], mod) && forall j :: k < j < |scans| ==> !IsModule(scans[j], mod)
    ensures var table := WithScans(defs, scans).fileByModule; mod in table && table[mod] == scans[k].file
    decreases |scans|
  {
    var n := |scans| - 1;
    if k < n {
      ModulesExact(defs, scans[..n], k, mod);
    }
  }

  lemma {:induction false} NoOtherModules(defs: Defs, scans: seq<ScanRow>, mod: string)
    requires mod !in defs.fileByModule && forall j :: 0 <= j < |scans| ==> !IsModule(scans[j], mod)
    ensures mod !in WithScans(defs, scans).fileByModule
    decreases |scans|
  {
    if scans != [] {
      NoOtherModules(defs, scans[..|scans| - 1], mod);
    }
  }
}
