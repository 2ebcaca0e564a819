/**
  The definitions table of a scanned codebase, and how each language looks up the target of a relation in it.
 */
module CodeIndex {
  import opened Ids
  import opened Text
  import opened Wrappers

  /** A relative path as its components. */
  type Path = seq<string>

  datatype Language = Py | Ts | Js | Go | Rs | Java | Rb | Php | C | Cpp | Unsupported

  datatype Kind = Imports | Calls | OtherKind

  /** A relation as extracted from a file: who uses what, and where. */
  datatype Relation = Relation(target: string, kind: Kind, line: nat, column: nat, source: string)

  /** The qualified name of the symbol that stands for a whole file. */
  const ANCHOR := "<module>"

  datatype Defs = Defs(
    symbols: map<Id, map<string, Id>>,     // per file: qualified name to symbol
    fileByModule: map<string, Id>,         // Python module path to file
    relPath: map<Id, Path>,
    fileByPath: map<Path, Id>,
    filesInDir: map<Path, seq<Id>>,
    dirOf: map<Id, Path>,
    languageOf: map<Id, Language>)

  function SymbolOf(defs: Defs, file: Id, name: string): Option<Id> {
    if file in defs.symbols && name in defs.symbols[file] then Some(defs.symbols[file][name]) else None
  }

  // ----- names

  function ReplaceColons(t: string, by': string): string {
    if |t| >= 2 && t[0] == ':' && t[1] == ':' then by' + ReplaceColons(t[2..], by')
    else if t == "" then ""
    else [t[0]] + ReplaceColons(t[1..], by')
  }

  /** The name of the class a method is in: the qualified name up to its last dot. */
  function EnclosingClass(source: string): Option<string> {
    var i := RFind(source, ".");
    if i > 0 then Some(source[..i]) else None
  }

  // ----- paths

  /** The parts between slashes, without empty ones and single dots; `part` is the one begun already. */
  function Components(t: string, part: string): Path {
    if t == "" then Component(part)
    else if t[0] == '/' then Component(part) + Components(t[1..], "")
    else Components(t[1..], part + [t[0]])
  }

  function Component(part: string): Path {
    if part == "" || part == "." then [] else [part]
  }

  function Parent(p: Path): Path {
    if p == [] then [] else p[..|p| - 1]
  }

  /** p / t as pathlib joins them: an absolute t replaces p, and no ".." is taken out. */
  function Join(p: Path, t: string): Option<Path> {
    if t != "" && t[0] == '/' then None else Some(p + Components(t, ""))
  }

  // ----- same directory

  function Others(files: seq<Id>, file: Id): seq<Id> {
    if files == [] then []
    else Others(files[..|files| - 1], file) + if files[|files| - 1] != file then [files[|files| - 1]] else []
  }

  function Siblings(defs: Defs, file: Id): seq<Id> {
    if file !in defs.dirOf || defs.dirOf[file] !in defs.filesInDir then []
    else Others(defs.filesInDir[defs.dirOf[file]], file)
  }

  /** The first of the files that defines the name. */
  function FirstDefining(defs: Defs, files: seq<Id>, name: string): Option<Id> {
    if files == [] then None
    else if SymbolOf(defs, files[0], name).Some? then SymbolOf(defs, files[0], name)
    else FirstDefining(defs, files[1..], name)
  }

  // ----- the resolvers

  function ResolvePython(defs: Defs, rel: Relation, file: Id): Option<Id> {
    if rel.target != "" && rel.target[0] == '.' then None
    else
      match rel.kind
      case Imports =>
        var i := RFind(rel.target, ".");
        if i >= 0 && rel.target[..i] in defs.fileByModule
        then SymbolOf(defs, defs.fileByModule[rel.target[..i]], rel.target[i + 1..])
        else None
      case Calls =>
        if SymbolOf(defs, file, rel.target).Some? then SymbolOf(defs, file, rel.target)
        else if IsAt(rel.target, "self.", 0) && EnclosingClass(rel.source).Some?
        then SymbolOf(defs, file, EnclosingClass(rel.source).value + "." + rel.target[5..])
        else None
      case OtherKind => None
  }

  const TS_JS_EXTENSIONS := [".ts", ".tsx", ".js", ".jsx", ".mjs", ".cjs"]

  /**
    base + ext and base/index + ext.  A base of no components is written "." and has no index file that could be
    found.
   */
  function TsCandidates(base: Path, ext: string): seq<Path> {
    if base == [] then [["." + ext]]
    else [base[..|base| - 1] + [base[|base| - 1] + ext], base + ["index" + ext]]
  }

  function FirstFile(defs: Defs, candidates: seq<Path>): Option<Id> {
    if candidates == [] then None
    else if candidates[0] in defs.fileByPath then Some(defs.fileByPath[candidates[0]])
    else FirstFile(defs, candidates[1..])
  }

  function TsFile(defs: Defs, base: Path, exts: seq<string>): Option<Id> {
    if exts == [] then None
    else
      var hit := FirstFile(defs, TsCandidates(base, exts[0]));
      if hit.Some? then hit else TsFile(defs, base, exts[1..])
  }

  function TsModule(defs: Defs, specifier: string, file: Id): Option<Id> {
    if file !in defs.relPath then None
    else
      match Join(Parent(defs.relPath[file]), specifier)
      case None => None
      case Some(base) => TsFile(defs, base, TS_JS_EXTENSIONS)
  }

  /** Only specifiers that begin with ./ or ../ are looked up. */
  function TsImported(defs: Defs, specifier: string, file: Id): Option<Id> {
    if !IsAt(specifier, "./", 0) && !IsAt(specifier, "../", 0) then None else TsModule(defs, specifier, file)
  }

  function ResolveTsJs(defs: Defs, rel: Relation, file: Id): Option<Id> {
    if SymbolOf(defs, file, rel.target).Some? then SymbolOf(defs, file, rel.target)
    else
      var i := RFind(rel.target, ".");
      if rel.kind != Imports || i < 0 then None
      else
        match TsImported(defs, rel.target[..i], file)
        case None => None
        case Some(target) => SymbolOf(defs, target, rel.target[i + 1..])
  }

  /** Go and Java: files in the same directory share a package. */
  function ResolvePackage(defs: Defs, rel: Relation, file: Id): Option<Id> {
    if SymbolOf(defs, file, rel.target).Some? then SymbolOf(defs, file, rel.target)
    else if rel.kind == Calls then FirstDefining(defs, Siblings(defs, file), rel.target)
    else None
  }

  /** The name in the first of the two files that exists and defines it. */
  function RustItem(defs: Defs, dir: Path, modulePath: string, item: string): Option<Id> {
    var asPath := ReplaceColons(modulePath, "/");
    var first := InFile(defs, Join(dir, asPath + ".rs"), item);
    if first.Some? then first
    else
      match Join(dir, asPath)
      case None => None
      case Some(p) => InFile(defs, Some(p + ["mod.rs"]), item)
  }

  function InFile(defs: Defs, path: Option<Path>, name: string): Option<Id> {
    if path.Some? && path.value in defs.fileByPath then SymbolOf(defs, defs.fileByPath[path.value], name) else None
  }

  function ResolveRust(defs: Defs, rel: Relation, file: Id): Option<Id> {
    var i := RFind(rel.target, "::");
    if SymbolOf(defs, file, rel.target).Some? then SymbolOf(defs, file, rel.target)
    else if i < 0 then None
    else if SymbolOf(defs, file, ReplaceColons(rel.target, ".")).Some?
        then SymbolOf(defs, file, ReplaceColons(rel.target, "."))
    else if rel.kind != Calls || file !in defs.relPath then None
    else RustItem(defs, Parent(defs.relPath[file]), rel.target[..i], rel.target[i + 2..])
  }

  /** The symbol a relation of the file is linked to, if its language's rules find one. */
  function Resolve(defs: Defs, rel: Relation, language: Language, file: Id): Option<Id> {
    match language
    case Py => ResolvePython(defs, rel, file)
    case Ts => ResolveTsJs(defs, rel, file)
    case Js => ResolveTsJs(defs, rel, file)
    case Go => ResolvePackage(defs, rel, file)
    case Java => ResolvePackage(defs, rel, file)
    case Rs => ResolveRust(defs, rel, file)
    case Unsupported => None
    case _ => SymbolOf(defs, file, rel.target)
  }

  // ----- anchors do not matter to resolution

  /** Two tables that differ in anchors only. */
  ghost predicate SameButAnchors(a: Defs, b: Defs) {
    && (forall file, name :: name != ANCHOR ==> SymbolOf(a, file, name) == SymbolOf(b, file, name))
    && a.fileByModule == b.fileByModule && a.relPath == b.relPath && a.fileByPath == b.fileByPath
    && a.filesInDir == b.filesInDir && a.dirOf == b.dirOf && a.languageOf == b.languageOf
  }

  /** The name of the relation's target does not end in the anchor's; no identifier of any language does. */
  ghost predicate PlainTarget(rel: Relation) {
    |rel.target| >= |ANCHOR| ==> rel.target[|rel.target| - |ANCHOR|..] != ANCHOR
  }

  lemma SuffixPlain(t: string, i: nat)
    requires i <= |t| && (|t| >= |ANCHOR| ==> t[|t| - |ANCHOR|..] != ANCHOR)
    ensures t[i..] != ANCHOR
  {
    assert |t[i..]| == |ANCHOR| ==> i == |t| - |ANCHOR|;
  }

  lemma {:induction false} ReplacedHas(t: string, by': string, c: char)
    requires c in by'
    ensures ReplaceColons(t, by') == t || c in ReplaceColons(t, by')
    decreases |t|
  {
    if |t| >= 2 && t[0] == ':' && t[1] == ':' {
      assert c in by' + ReplaceColons(t[2..], by');
    } else if t != "" {
      ReplacedHas(t[1..], by', c);
    }
  }

  lemma {:induction false} FirstDefiningIgnores(a: Defs, b: Defs, files: seq<Id>, name: string)
    requires SameButAnchors(a, b) && name != ANCHOR
    ensures FirstDefining(a, files, name) == FirstDefining(b, files, name)
    decreases |files|
  {
    if files != [] {
      FirstDefiningIgnores(a, b, files[1..], name);
    }
  }

  lemma {:induction false} FirstFileIgnores(a: Defs, b: Defs, candidates: seq<Path>)
    requires a.fileByPath == b.fileByPath
    ensures FirstFile(a, candidates) == FirstFile(b, candidates)
    decreases |candidates|
  {
    if candidates != [] {
      FirstFileIgnores(a, b, candidates[1..]);
    }
  }

  lemma {:induction false} TsFileIgnores(a: Defs, b: Defs, base: Path, exts: seq<string>)
    requires a.fileByPath == b.fileByPath
    ensures TsFile(a, base, exts) == TsFile(b, base, exts)
    decreases |exts|
  {
    if exts != [] {
      FirstFileIgnores(a, b, TsCandidates(base, exts[0]));
      TsFileIgnores(a, b, base, exts[1..]);
    }
  }

  lemma PythonIgnores(a: Defs, b: Defs, rel: Relation, file: Id)
    requires SameButAnchors(a, b) && PlainTarget(rel)
    ensures ResolvePython(a, rel, file) == ResolvePython(b, rel, file)
  {
    if rel.kind == Imports {
      PythonImportIgnores(a, b, rel, file);
    } else if rel.kind == Calls {
      PythonCallIgnores(a, b, rel, file);
    }
  }

  lemma PythonImportIgnores(a: Defs, b: Defs, rel: Relation, file: Id)
    requires SameButAnchors(a, b) && PlainTarget(rel) && rel.kind == Imports
    ensures ResolvePython(a, rel, file) == ResolvePython(b, rel, file)
  {
    var i := RFind(rel.target, ".");
    if i >= 0 {
      SuffixPlain(rel.target, i + 1);
    }
  }

  lemma PythonCallIgnores(a: Defs, b: Defs, rel: Relation, file: Id)
    requires SameButAnchors(a, b) && PlainTarget(rel) && rel.kind == Calls
    ensures ResolvePython(a, rel, file) == ResolvePython(b, rel, file)
  {
    SuffixPlain(rel.target, 0);
    assert rel.target[0..] == rel.target;
    if IsAt(rel.target, "self.", 0) && EnclosingClass(rel.source).Some? {
      NoDotInAnchor(EnclosingClass(rel.source).value, rel.target[5..]);
    }
  }

  lemma NoDotInAnchor(class': string, leaf: string)
    ensures class' + "." + leaf != ANCHOR
  {
    assert (class' + "." + leaf)[|class'|] == '.';
    assert '.' !in ANCHOR;
  }

  lemma TsJsIgnores(a: Defs, b: Defs, rel: Relation, file: Id)
    requires SameButAnchors(a, b) && PlainTarget(rel)
    ensures ResolveTsJs(a, rel, file) == ResolveTsJs(b, rel, file)
  {
    SuffixPlain(rel.target, 0);
    assert rel.target[0..] == rel.target;
    var i := RFind(rel.target, ".");
    if i >= 0 {
      SuffixPlain(rel.target, i + 1);
      TsModuleIgnores(a, b, rel.target[..i], file);
    }
  }

  lemma TsModuleIgnores(a: Defs, b: Defs, specifier: string, file: Id)
    requires SameButAnchors(a, b)
    ensures TsModule(a, specifier, file) == TsModule(b, specifier, file)
  {
    if file in a.relPath {
      var base := Join(Parent(a.relPath[file]), specifier);
      if base.Some? {
        TsFileIgnores(a, b, base.value, TS_JS_EXTENSIONS);
      }
    }
  }

  lemma PackageIgnores(a: Defs, b: Defs, rel: Relation, file: Id)
    requires SameButAnchors(a, b) && PlainTarget(rel)
    ensures ResolvePackage(a, rel, file) == ResolvePackage(b, rel, file)
  {
    SuffixPlain(rel.target, 0);
    assert rel.target[0..] == rel.target;
    FirstDefiningIgnores(a, b, Siblings(a, file), rel.target);
  }

  lemma RustIgnores(a: Defs, b: Defs, rel: Relation, file: Id)
    requires SameButAnchors(a, b) && PlainTarget(rel)
    ensures ResolveRust(a, rel, file) == ResolveRust(b, rel, file)
  {
    SuffixPlain(rel.target, 0);
    assert rel.target[0..] == rel.target;
    var i := RFind(rel.target, "::");
    if SymbolOf(a, file, rel.target).None? && i >= 0 {
      var dotted, modulePath, item := ReplaceColons(rel.target, "."), rel.target[..i], rel.target[i + 2..];
      SuffixPlain(rel.target, i + 2);
      ReplacedPlain(rel.target);
      assert SymbolOf(a, file, dotted) == SymbolOf(b, file, dotted);
      if file in a.relPath {
        RustItemIgnores(a, b, Parent(a.relPath[file]), modulePath, item);
      }
    }
  }

  lemma RustItemIgnores(a: Defs, b: Defs, dir: Path, modulePath: string, item: string)
    requires SameButAnchors(a, b) && item != ANCHOR
    ensures RustItem(a, dir, modulePath, item) == RustItem(b, dir, modulePath, item)
  {
  }

  lemma ReplacedPlain(t: string)
    requires t != ANCHOR
    ensures ReplaceColons(t, ".") != ANCHOR
  {
    ReplacedHas(t, ".", '.');
    assert '.' !in ANCHOR;
  }

  /** A table with or without anchors resolves a plain target to the same symbol. */
  lemma ResolveIgnoresAnchors(a: Defs, b: Defs, rel: Relation, language: Language, file: Id)
    requires SameButAnchors(a, b) && PlainTarget(rel)
    ensures Resolve(a, rel, language, file) == Resolve(b, rel, language, file)
  {
    SuffixPlain(rel.target, 0);
    assert rel.target[0..] == rel.target;
    PythonIgnores(a, b, rel, file);
    TsJsIgnores(a, b, rel, file);
    PackageIgnores(a, b, rel, file);
    RustIgnores(a, b, rel, file);
  }

  /** Resolution looks at the source's name only for its class, and the anchor has none. */
  lemma ResolveFromAnchor(defs: Defs, rel: Relation, language: Language, file: Id)
    requires rel.source == ""
    ensures Resolve(defs, rel.(source := ANCHOR), language, file) == Resolve(defs, rel, language, file)
  {
    NoClass("");
    NoClass(ANCHOR);
  }

  lemma NoClass(source: string)
    requires '.' !in source
    ensures EnclosingClass(source) == None
  {
    forall k | 0 <= k < |source| ensures !IsAt(source, ".", k) {
      assert source[k + 0] != "."[0];
    }
  }

  // ----- what the resolvers find

  /** The first file of the list that defines the name, if any does. */
  lemma {:induction false} FirstDefiningExact(defs: Defs, files: seq<Id>, name: string) returns (k: nat)
    ensures var r := FirstDefining(defs, files, name);
      && k <= |files| && (r.None? <==> k == |files|) && (k < |files| ==> r == SymbolOf(defs, files[k], name))
      && forall j :: 0 <= j < k ==> SymbolOf(defs, files[j], name).None?
    decreases |files|
  {
    if files == [] || SymbolOf(defs, files[0], name).Some? {
      k := 0;
    } else {
      var n := FirstDefiningExact(defs, files[1..], name);
      k := n + 1;
    }
  }

  /** Go and Java: resolved exactly if the file defines the name or, for a call, another file of the directory does. */
  lemma PackageExact(defs: Defs, rel: Relation, file: Id)
    ensures ResolvePackage(defs, rel, file).Some? <==>
      || SymbolOf(defs, file, rel.target).Some?
      || (rel.kind == Calls && exists k ::
        0 <= k < |Siblings(defs, file)| && SymbolOf(defs, Siblings(defs, file)[k], rel.target).Some?)
  {
    var k := FirstDefiningExact(defs, Siblings(defs, file), rel.target);
  }

  lemma LastDot(front: string, leaf: string)
    requires '.' !in leaf
    ensures RFind(front + "." + leaf, ".") == |front|
  {
    var t := front + "." + leaf;
    assert IsAt(t, ".", |front|);
    forall k | |front| < k < |t| ensures !IsAt(t, ".", k) {
      assert t[k + 0] == leaf[k - |front| - 1];
      assert "."[0] == '.';
    }
  }

  /** "from a.b import c" is the symbol c of the file that is the module a.b. */
  lemma PythonImportExact(defs: Defs, rel: Relation, file: Id, mod: string, leaf: string)
    requires rel.kind == Imports && rel.target == mod + "." + leaf && '.' !in leaf && mod != "" && mod[0] != '.'
    ensures ResolvePython(defs, rel, file) == if mod in defs.fileByModule
        then SymbolOf(defs, defs.fileByModule[mod], leaf) else None
  {
    LastDot(mod, leaf);
    assert rel.target[..|mod|] == mod && rel.target[|mod| + 1..] == leaf;
  }

  /**
    A call of self.leaf in a method of a class is the class's own leaf, unless the file has a symbol of the very name
    that is called.
   */
  lemma PythonSelfExact(defs: Defs, rel: Relation, file: Id, cls: string, method': string, leaf: string)
    requires rel.kind == Calls && rel.target == "self." + leaf && rel.source == cls + "." + method' && '.' !in method'
        && cls != ""
    ensures ResolvePython(defs, rel, file)
         == if SymbolOf(defs, file, rel.target).Some? then SymbolOf(defs, file, rel.target)
             else SymbolOf(defs, file, cls + "." + leaf)
  {
    LastDot(cls, method');
    assert rel.source[..|cls|] == cls;
    assert rel.target[5..] == leaf && IsAt(rel.target, "self.", 0);
    assert rel.target[0] == "self."[0];
  }

  lemma {:induction false} FirstFileExact(defs: Defs, candidates: seq<Path>)
    ensures FirstFile(defs, candidates).Some? <==> exists c :: c in candidates && c in defs.fileByPath
    decreases |candidates|
  {
    if candidates != [] {
      FirstFileExact(defs, candidates[1..]);
      assert candidates[0] in candidates;
      assert forall c :: c in candidates <==> c == candidates[0] || c in candidates[1..];
    }
  }

  /** A base path stands for a file exactly if some extension, or an index file with some extension, does. */
  lemma {:induction false} TsFileExact(defs: Defs, base: Path, exts: seq<string>)
    ensures TsFile(defs, base, exts).Some? <==> exists ext, c ::
      ext in exts && c in TsCandidates(base, ext) && c in defs.fileByPath
    decreases |exts|
  {
    if exts != [] {
      FirstFileExact(defs, TsCandidates(base, exts[0]));
      TsFileExact(defs, base, exts[1..]);
      assert exts[0] in exts;
      assert forall ext :: ext in exts <==> ext == exts[0] || ext in exts[1..];
    }
  }

  /** The part of the target behind one of its separators. */
  ghost predicate LastPart(target: string, name: string) {
    exists i :: 0 < i <= |target| && (target[i - 1] == '.' || target[i - 1] == ':') && target[i..] == name
  }

  /** A name that the target can stand for. */
  ghost predicate Means(rel: Relation, name: string) {
    || name == rel.target || name == ReplaceColons(rel.target, ".") || LastPart(rel.target, name)
    || (EnclosingClass(rel.source).Some? && IsAt(rel.target, "self.", 0)
        && name == EnclosingClass(rel.source).value + "." + rel.target[5..])
  }

  /** No resolver invents a link: what is found is defined under a name that the target can stand for. */
  lemma ResolveSound(defs: Defs, rel: Relation, language: Language, file: Id) returns (f: Id, name: string)
    requires Resolve(defs, rel, language, file).Some?
    ensures SymbolOf(defs, f, name) == Resolve(defs, rel, language, file) && Means(rel, name)
  {
    f, name := file, rel.target;
    match language
    case Py => f, name := PythonSound(defs, rel, file);
    case Ts => f, name := TsJsSound(defs, rel, file);
    case Js => f, name := TsJsSound(defs, rel, file);
    case Go =>
      var k := FirstDefiningExact(defs, Siblings(defs, file), rel.target);
      f := if SymbolOf(defs, file, rel.target).Some? then file else Siblings(defs, file)[k];
    case Java =>
      var k := FirstDefiningExact(defs, Siblings(defs, file), rel.target);
      f := if SymbolOf(defs, file, rel.target).Some? then file else Siblings(defs, file)[k];
    case Rs => f, name := RustSound(defs, rel, file);
    case _ =>
  }

  lemma Behind(target: string, sep: string, i: nat)
    requires IsAt(target, sep, i) && sep != "" && (sep[|sep| - 1] == '.' || sep[|sep| - 1] == ':')
    ensures LastPart(target, target[i + |sep|..])
  {
    assert target[i + (|sep| - 1)] == sep[|sep| - 1];
  }

  lemma PythonSound(defs: Defs, rel: Relation, file: Id) returns (f: Id, name: string)
    requires ResolvePython(defs, rel, file).Some?
    ensures SymbolOf(defs, f, name) == ResolvePython(defs, rel, file) && Means(rel, name)
  {
    f, name := file, rel.target;
    if rel.kind == Imports {
      var i := RFind(rel.target, ".");
      Behind(rel.target, ".", i);
      f, name := defs.fileByModule[rel.target[..i]], rel.target[i + 1..];
    } else if SymbolOf(defs, file, rel.target).None? {
      name := EnclosingClass(rel.source).value + "." + rel.target[5..];
    }
  }

  lemma TsJsSound(defs: Defs, rel: Relation, file: Id) returns (f: Id, name: string)
    requires ResolveTsJs(defs, rel, file).Some?
    ensures SymbolOf(defs, f, name) == ResolveTsJs(defs, rel, file) && Means(rel, name)
  {
    f, name := file, rel.target;
    if SymbolOf(defs, file, rel.target).None? {
      var i := RFind(rel.target, ".");
      Behind(rel.target, ".", i);
      f, name := TsModule(defs, rel.target[..i], file).value, rel.target[i + 1..];
    }
  }

  lemma RustSound(defs: Defs, rel: Relation, file: Id) returns (f: Id, name: string)
    requires ResolveRust(defs, rel, file).Some?
    ensures SymbolOf(defs, f, name) == ResolveRust(defs, rel, file) && Means(rel, name)
  {
    f, name := file, rel.target;
    if SymbolOf(defs, file, rel.target).None? {
      var i := RFind(rel.target, "::");
      var dotted := ReplaceColons(rel.target, ".");
      if SymbolOf(defs, file, dotted).Some? {
        name := dotted;
      } else {
        Behind(rel.target, "::", i);
        name := rel.target[i + 2..];
        f := RustItemSound(defs, Parent(defs.relPath[file]), rel.target[..i], name);
      }
    }
  }

  lemma RustItemSound(defs: Defs, dir: Path, modulePath: string, item: string) returns (f: Id)
    requires RustItem(defs, dir, modulePath, item).Some?
    ensures SymbolOf(defs, f, item) == RustItem(defs, dir, modulePath, item)
  {
    var asPath := ReplaceColons(modulePath, "/");
    var first := Join(dir, asPath + ".rs");
    if InFile(defs, first, item).Some? {
      f := defs.fileByPath[first.value];
    } else {
      f := defs.fileByPath[Join(dir, asPath).value + ["mod.rs"]];
    }
  }

  // ----- parent specifiers

  /** Some component begins with two dots. */
  ghost predicate HasDots(p: Path) {
    exists k :: 0 <= k < |p| && IsAt(p[k], "..", 0)
  }

  /** A specifier from a parent directory has one: "..". */
  lemma ParentHasDots(t: string)
    requires IsAt(t, "../", 0)
    ensures HasDots(Components(t, ""))
  {
    assert "../"[0] == t[0] == '.' && "../"[1] == t[1] == '.' && "../"[2] == t[2] == '/';
    assert t[1..][1..] == t[2..] && t[2..][1..] == t[3..];
    assert "" + [t[0]] == "." && "." + [t[1]] == "..";
    assert Components(t, "") == Components(t[1..], ".");
    assert Components(t[1..], ".") == Components(t[2..], "..");
    var p := Components(t, "");
    assert p == [".."] + Components(t[3..], "");
    assert IsAt(p[0], "..", 0);
  }

  lemma CandidatesHaveDots(base: Path, ext: string, c: Path)
    requires HasDots(base) && c in TsCandidates(base, ext)
    ensures HasDots(c)
  {
    var k :| 0 <= k < |base| && IsAt(base[k], "..", 0);
    assert c[k] == base[k] || c[k] == base[k] + ext;
    assert IsAt(c[k], "..", 0);
  }

  lemma {:induction false} NoFileWithDots(defs: Defs, candidates: seq<Path>)
    requires forall p :: p in defs.fileByPath ==> !HasDots(p)
    requires forall c :: c in candidates ==> HasDots(c)
    ensures FirstFile(defs, candidates) == None
    decreases |candidates|
  {
    if candidates != [] {
      assert candidates[0] in candidates;
      NoFileWithDots(defs, candidates[1..]);
    }
  }

  lemma {:induction false} NoTsFileWithDots(defs: Defs, base: Path, exts: seq<string>)
    requires HasDots(base) && forall p :: p in defs.fileByPath ==> !HasDots(p)
    ensures TsFile(defs, base, exts) == None
    decreases |exts|
  {
    if exts != [] {
      forall c | c in TsCandidates(base, exts[0]) ensures HasDots(c) {
        CandidatesHaveDots(base, exts[0], c);
      }
      NoFileWithDots(defs, TsCandidates(base, exts[0]));
      NoTsFileWithDots(defs, base, exts[1..]);
    }
  }

  ghost predicate NoDots(defs: Defs) {
    forall p :: p in defs.fileByPath ==> !HasDots(p)
  }

  ghost predicate Relative(specifier: string) { IsAt(specifier, "./", 0) || IsAt(specifier, "../", 0) }

  lemma RelativeJoins(p: Path, specifier: string)
    requires Relative(specifier)
    ensures Join(p, specifier) == Some(p + Components(specifier, ""))
  {
    assert "./"[0] == "../"[0] == specifier[0];
  }

  lemma DotsInside(p: Path, q: Path)
    ensures HasDots(p + q) <==> HasDots(p) || HasDots(q)
  {
    var all := p + q;
    if k :| 0 <= k < |p| && IsAt(p[k], "..", 0) {
      assert all[k] == p[k];
    }
    if k :| 0 <= k < |q| && IsAt(q[k], "..", 0) {
      assert all[|p| + k] == q[k];
    }
  }

  /** Which paths the code looks up for a relative specifier, and that nothing is found behind dots. */
  lemma TsModuleIff(defs: Defs, specifier: string, file: Id)
    requires NoDots(defs) && Relative(specifier) && file in defs.relPath
    ensures var base := Parent(defs.relPath[file]) + Components(specifier, "");
      && TsModule(defs, specifier, file) == TsFile(defs, base, TS_JS_EXTENSIONS)
      && (HasDots(Components(specifier, "")) ==> TsModule(defs, specifier, file) == None)
      && (TsModule(defs, specifier, file).Some?
          <==> exists ext, c :: ext in TS_JS_EXTENSIONS && c in TsCandidates(base, ext) && c in defs.fileByPath)
  {
    var dir := Parent(defs.relPath[file]);
    var base := dir + Components(specifier, "");
    RelativeJoins(dir, specifier);
    DotsInside(dir, Components(specifier, ""));
    TsFileExact(defs, base, TS_JS_EXTENSIONS);
    if HasDots(base) {
      NoTsFileWithDots(defs, base, TS_JS_EXTENSIONS);
    }
  }

  /**
    An import whose specifier has a component with two dots never reaches another file: the path that is looked up
    keeps them.
   */
  lemma ParentImportsUnresolved(defs: Defs, rel: Relation, file: Id, i: nat)
    requires NoDots(defs) && i == RFind(rel.target, ".") && HasDots(Components(rel.target[..i], ""))
    ensures ResolveTsJs(defs, rel, file) == SymbolOf(defs, file, rel.target)
  {
    var specifier := rel.target[..i];
    if file in defs.relPath && Relative(specifier) {
      TsModuleIff(defs, specifier, file);
    }
  }

  /** The path a specifier means: every ".." takes out the component before it. */
  function Collapsed(p: Path): Path {
    if p == [] then []
    else
      var front := Collapsed(p[..|p| - 1]);
      if p[|p| - 1] == ".." && front != [] then front[..|front| - 1] else front + [p[|p| - 1]]
  }

  lemma {:induction false} CollapsedSame(p: Path)
    requires !HasDots(p)
    ensures Collapsed(p) == p
    decreases |p|
  {
    if p != [] {
      var n := |p| - 1;
      assert p == p[..n] + [p[n]];
      DotsInside(p[..n], [p[n]]);
      CollapsedSame(p[..n]);
      assert !IsAt(p[n], "..", 0);
    }
  }

  /** The specifiers that lead to a file of the project. */
  ghost predicate Local(specifier: string) { specifier == "." || specifier == ".." || Relative(specifier) }

  /** The index files of the project's root, in the order of the extensions. */
  const ROOT_INDEXES: seq<Path> :=
    [["index.ts"], ["index.tsx"], ["index.js"], ["index.jsx"], ["index.mjs"], ["index.cjs"]]

  /**
    The file a specifier means: that of the very path, else the first with an extension or an index file in it.  The
    root has no name that an extension could be added to, but index files like any directory.
   */
  function MeantFile(defs: Defs, dir: Path, specifier: string): Option<Id> {
    var path := Collapsed(dir + Components(specifier, ""));
    if path in defs.fileByPath then Some(defs.fileByPath[path])
    else if path == [] then FirstFile(defs, ROOT_INDEXES)
    else TsFile(defs, path, TS_JS_EXTENSIONS)
  }

  /** The code looks for no file of the root's that is there. */
  lemma {:induction false} RootNotReached(defs: Defs, exts: seq<string>)
    requires NoDots(defs) && forall ext :: ext in exts ==> IsAt(ext, ".", 0)
    ensures TsFile(defs, [], exts) == None
    decreases |exts|
  {
    if exts != [] {
      var name := "." + exts[0];
      assert IsAt(exts[0], ".", 0) && exts[0][0 + 0] == "."[0];
      assert name[0] == '.' && name[1] == exts[0][0] && ".."[0] == ".."[1] == '.';
      assert IsAt([name][0], "..", 0);
      assert HasDots([name]) && TsCandidates([], exts[0]) == [[name]];
      NoFileWithDots(defs, [[name]]);
      RootNotReached(defs, exts[1..]);
    }
  }

  /** No file stands under two paths. */
  ghost predicate OnePath(defs: Defs) {
    forall p, q :: p in defs.fileByPath && q in defs.fileByPath && defs.fileByPath[p] == defs.fileByPath[q] ==> p == q
  }

  lemma {:induction false} FirstFileAmong(defs: Defs, candidates: seq<Path>) returns (c: Path)
    requires FirstFile(defs, candidates).Some?
    ensures c in candidates && c in defs.fileByPath && FirstFile(defs, candidates) == Some(defs.fileByPath[c])
    decreases |candidates|
  {
    if candidates[0] in defs.fileByPath {
      c := candidates[0];
    } else {
      c := FirstFileAmong(defs, candidates[1..]);
    }
  }

  lemma CandidatesDiffer(base: Path, ext: string)
    requires ext != ""
    ensures base !in TsCandidates(base, ext)
  {
    if base != [] {
      var n := |base| - 1;
      assert |base[n] + ext| > |base[n]|;
      assert (base[..n] + [base[n] + ext])[n] == base[n] + ext;
    }
  }

  /** The file of a path is never found under the path with an extension. */
  lemma {:induction false} NeverTheFileItself(defs: Defs, base: Path, exts: seq<string>)
    requires OnePath(defs) && base in defs.fileByPath && "" !in exts
    ensures TsFile(defs, base, exts) != Some(defs.fileByPath[base])
    decreases |exts|
  {
    if exts != [] {
      CandidatesDiffer(base, exts[0]);
      if FirstFile(defs, TsCandidates(base, exts[0])).Some? {
        var c := FirstFileAmong(defs, TsCandidates(base, exts[0]));
      } else {
        NeverTheFileItself(defs, base, exts[1..]);
      }
    }
  }

  /**
    An import finds the file it means if and only if there is none, or the specifier begins with ./ or ../, has no
    component with two dots, does not lead to the root, and does not give the very path of a file: extensions are
    always added.
   */
  lemma MeantFileIff(defs: Defs, specifier: string, file: Id)
    requires NoDots(defs) && OnePath(defs) && Local(specifier)
    requires file in defs.relPath && !HasDots(Parent(defs.relPath[file]))
    ensures var dir, parts := Parent(defs.relPath[file]), Components(specifier, "");
      TsImported(defs, specifier, file) == MeantFile(defs, dir, specifier)
      <==> || MeantFile(defs, dir, specifier) == None
           || (Relative(specifier) && !HasDots(parts) && dir + parts != [] && dir + parts !in defs.fileByPath)
  {
    var dir, parts := Parent(defs.relPath[file]), Components(specifier, "");
    if Relative(specifier) {
      TsModuleIff(defs, specifier, file);
      DotsInside(dir, parts);
      if !HasDots(parts) {
        CollapsedSame(dir + parts);
        if dir + parts in defs.fileByPath {
          assert forall ext :: ext in TS_JS_EXTENSIONS ==> |ext| > 0;
          NeverTheFileItself(defs, dir + parts, TS_JS_EXTENSIONS);
        } else if dir + parts == [] {
          RootNotReached(defs, TS_JS_EXTENSIONS);
        }
      }
    }
  }

  // ----- building the table

  datatype SymbolRow = SymbolRow(id: Id, name: string, file: Id)

  /** A scanned file; the path is None if it is not below the project's root. */
  datatype ScanRow = ScanRow(path: Option<Path>, file: Id, language: Language)

  const NO_DEFS := Defs(map[], map[], map[], map[], map[], map[], map[])

  function AddSymbol(defs: Defs, row: SymbolRow): Defs {
    var known := if row.file in defs.symbols then defs.symbols[row.file] else map[];
    defs.(symbols := defs.symbols[row.file := known[row.name := row.id]])
  }

  /** foo/bar.py is foo.bar, foo/bar/__init__.py is foo.bar. */
  function PythonModule(p: Path): Option<string> {
    if p == [] || |p[|p| - 1]| <= 3 || !IsAt(p[|p| - 1], ".py", |p[|p| - 1]| - 3) then None
    else
      var name := p[|p| - 1][..|p[|p| - 1]| - 3];
      var parts := if name == "__init__" then Parent(p) else Parent(p) + [name];
      if parts == [] then None else Some(Dotted(parts))
  }

  function Dotted(parts: Path): string {
    if parts == [] then "" else if |parts| == 1 then parts[0] else parts[0] + "." + Dotted(parts[1..])
  }

  function AddScan(defs: Defs, scan: ScanRow): Defs {
    match scan.path
    case None => defs
    case Some(path) =>
      var dir := Parent(path);
      var inDir := if dir in defs.filesInDir then defs.filesInDir[dir] else [];
      var defs' := defs.(
        relPath := defs.relPath[scan.file := path],
        fileByPath := defs.fileByPath[path := scan.file],
        languageOf := defs.languageOf[scan.file := scan.language],
        dirOf := defs.dirOf[scan.file := dir],
        filesInDir := defs.filesInDir[dir := inDir + [scan.file]]);
      if scan.language == Py && PythonModule(path).Some?
      then defs'.(fileByModule := defs'.fileByModule[PythonModule(path).value := scan.file])
      else defs'
  }

  function WithSymbols(rows: seq<SymbolRow>): Defs {
    if rows == [] then NO_DEFS else AddSymbol(WithSymbols(rows[..|rows| - 1]), rows[|rows| - 1])
  }

  function WithScans(defs: Defs, scans: seq<ScanRow>): Defs {
    if scans == [] then defs else AddScan(WithScans(defs, scans[..|scans| - 1]), scans[|scans| - 1])
  }

  function Definitions(rows: seq<SymbolRow>, scans: seq<ScanRow>): Defs { WithScans(WithSymbols(rows), scans) }

  method BuildDefinitions(rows: seq<SymbolRow>, scans: seq<ScanRow>) returns (defs: Defs)
    ensures defs == Definitions(rows, scans)
  {
    defs := NO_DEFS;
    for k := 0 to |rows|
      invariant defs == WithSymbols(rows[..k])
    {
      assert rows[..k + 1][..k] == rows[..k];
      defs := AddSymbol(defs, rows[k]);
    }
    assert rows[..|rows|] == rows;
    for k := 0 to |scans|
      invariant defs == WithScans(WithSymbols(rows), scans[..k])
    {
      assert scans[..k + 1][..k] == scans[..k];
      defs := AddScan(defs, scans[k]);
    }
    assert scans[..|scans|] == scans;
  }

  /** Every file is scanned once, under one path. */
  ghost predicate DistinctScans(scans: seq<ScanRow>) {
    forall i, j :: 0 <= i < j < |scans|
        ==> scans[i].file != scans[j].file && (scans[i].path.Some? ==> scans[i].path != scans[j].path)
  }

  /** The slow form: all scanned files, in order, that are in the directory. */
  function ScannedIn(scans: seq<ScanRow>, dir: Path): seq<Id> {
    if scans == [] then []
    else
      var last := scans[|scans| - 1];
      ScannedIn(scans[..|scans| - 1], dir) + if last.path.Some? && Parent(last.path.value) == dir then [last.file]
          else []
  }

  lemma {:induction false} FilesInDirExact(defs: Defs, scans: seq<ScanRow>, dir: Path)
    requires defs.filesInDir == map[]
    ensures var d := WithScans(defs, scans);
      (if dir in d.filesInDir then d.filesInDir[dir] else []) == ScannedIn(scans, dir)
  {
    if scans != [] {
      FilesInDirExact(defs, scans[..|scans| - 1], dir);
    }
  }

  /** What the table says of a scanned file. */
  ghost predicate Recorded(d: Defs, file: Id, path: Path, language: Language) {
    && file in d.relPath && d.relPath[file] == path
    && file in d.dirOf && d.dirOf[file] == Parent(path)
    && path in d.fileByPath && d.fileByPath[path] == file
    && file in d.languageOf && d.languageOf[file] == language
  }

  lemma AddScanKeeps(d: Defs, scan: ScanRow, file: Id, path: Path, language: Language)
    requires Recorded(d, file, path, language) && scan.file != file && scan.path != Some(path)
    ensures Recorded(AddScan(d, scan), file, path, language)
  {
  }

  lemma {:induction false} PathsExact(defs: Defs, scans: seq<ScanRow>, k: nat)
    requires DistinctScans(scans) && k < |scans| && scans[k].path.Some?
    ensures Recorded(WithScans(defs, scans), scans[k].file, scans[k].path.value, scans[k].language)
  {
    var n := |scans| - 1;
    if k < n {
      assert scans[..n][k] == scans[k];
      PathsExact(defs, scans[..n], k);
      AddScanKeeps(WithScans(defs, scans[..n]), scans[n], scans[k].file, scans[k].path.value, scans[k].language);
    }
  }

  /** The precomputed maps give the siblings that a search through all scanned files would give. */
  lemma SiblingsExact(rows: seq<SymbolRow>, scans: seq<ScanRow>, k: nat)
    requires DistinctScans(scans) && k < |scans| && scans[k].path.Some?
    ensures Siblings(Definitions(rows, scans), scans[k].file)
        == Others(ScannedIn(scans, Parent(scans[k].path.value)), scans[k].file)
  {
    NoScansYet(rows);
    FilesInDirExact(WithSymbols(rows), scans, Parent(scans[k].path.value));
    PathsExact(WithSymbols(rows), scans, k);
  }

  lemma {:induction false} NoScansYet(rows: seq<SymbolRow>)
    ensures var d := WithSymbols(rows); d.filesInDir == map[] && d.relPath == map[] && d.dirOf == map[]
  {
    if rows != [] {
      NoScansYet(rows[..|rows| - 1]);
    }
  }

  /** The table of two files of TypeScript or JavaScript, of which the second defines one name. */
  ghost predicate TwoFiles(defs: Defs, language: Language, p: Path, x: Id, q: Path, b: Id, name: string, symbol: Id) {
    defs == Definitions([SymbolRow(symbol, name, b)], [ScanRow(Some(p), x, language), ScanRow(Some(q), b, language)])
  }

  lemma TwoFilesAre(defs: Defs, language: Language, p: Path, x: Id, q: Path, b: Id, name: string, symbol: Id)
    requires TwoFiles(defs, language, p, x, q, b, name, symbol) && language != Py && x != b && p != q
    ensures defs.symbols == map[b := map[name := symbol]] && defs.fileByPath == map[p := x, q := b]
    ensures x in defs.relPath && defs.relPath[x] == p && OnePath(defs)
  {
    var row := SymbolRow(symbol, name, b);
    var first, second := ScanRow(Some(p), x, language), ScanRow(Some(q), b, language);
    var rows, scans := [row], [first, second];
    assert rows[..0] == [] && scans[..1] == [first] && scans[..1][..0] == [];
    assert WithSymbols(rows) == AddSymbol(NO_DEFS, row);
    var d := WithSymbols(rows);
    assert WithScans(d, scans[..1]) == AddScan(d, first);
    assert defs == AddScan(AddScan(d, first), second);
  }

  lemma PlainPath(p: Path)
    requires forall k :: 0 <= k < |p| ==> p[k] != "" && p[k][0] != '.'
    ensures !HasDots(p)
  {
    assert ".."[0] == '.';
    forall k | 0 <= k < |p| ensures !IsAt(p[k], "..", 0) {
      assert p[k][0 + 0] != ".."[0];
    }
  }

  /** If the specifier does not reach the only file that defines anything, the import is not resolved. */
  lemma MissedImport(defs: Defs, rel: Relation, x: Id, b: Id, specifier: string, leaf: string)
    requires defs.symbols.Keys == {b} && x != b && TsImported(defs, specifier, x) != Some(b)
    requires rel.kind == Imports && rel.target == specifier + "." + leaf && '.' !in leaf
    ensures ResolveTsJs(defs, rel, x) == None
  {
    LastDot(specifier, leaf);
    assert rel.target[..|specifier|] == specifier;
  }

  lemma {:induction false} Slashless(t: string, part: string)
    requires '/' !in t
    ensures Components(t, part) == Component(part + t)
    decreases |t|
  {
    if t == "" {
      assert part + t == part;
    } else {
      Slashless(t[1..], part + [t[0]]);
      assert part + [t[0]] + t[1..] == part + t;
    }
  }

  lemma BesideComponents(specifier: string, name: string)
    requires specifier == "./" + name && '/' !in name && name != "" && name != "."
    ensures Relative(specifier) && Components(specifier, "") == [name]
  {
    assert specifier[1..][1..] == name && specifier[1..][0] == '/';
    assert "" + [specifier[0]] == ".";
    assert Components(specifier[1..], ".") == Component(".") + Components(name, "");
    Slashless(name, "");
    assert "" + name == name;
  }

  lemma AboveComponents(specifier: string, name: string)
    requires specifier == "../" + name && '/' !in name && name != "" && name != "."
    ensures Relative(specifier) && Components(specifier, "") == ["..", name]
  {
    assert specifier[1..] == "./" + name && specifier[2..] == "/" + name && specifier[3..] == name;
    assert specifier[1..][1..] == specifier[2..] && specifier[2..][1..] == specifier[3..];
    assert "" + ['.'] == "." && "." + ['.'] == "..";
    assert Components(specifier, "") == Components(specifier[1..], ".");
    assert Components(specifier[1..], ".") == Components(specifier[2..], "..");
    assert Components(specifier[2..], "..") == [".."] + Components(name, "");
    Slashless(name, "");
    assert "" + name == name;
  }

  lemma CollapsedAbove(a: string, b: string, name: string, p: Path)
    requires p == [a, b, "..", name] && !HasDots([a, b]) && !HasDots([name])
    ensures Collapsed(p) == [a, name]
  {
    CollapsedSame([a, b]);
    assert p[..3] == [a, b, ".."] && p[..3][..2] == [a, b];
    assert Collapsed(p[..3]) == [a];
    assert IsAt("..", "..", 0);
    assert [name][0] != "..";
  }

  lemma FirstCandidate(defs: Defs, base: Path, q: Path)
    requires base != [] && q == base[..|base| - 1] + [base[|base| - 1] + ".ts"] && q in defs.fileByPath
    ensures TsFile(defs, base, TS_JS_EXTENSIONS) == Some(defs.fileByPath[q])
  {
    assert TS_JS_EXTENSIONS[0] == ".ts";
    assert TsCandidates(base, ".ts")[0] == q;
  }

  predicate PlainName(t: string) { t != "" && t[0] != '.' && '/' !in t }

  lemma NotDot(name: string)
    requires PlainName(name)
    ensures name != "." && name != ".." && !HasDots([name])
  {
    PlainPath([name]);
  }

  /** dir/sub/file imports leaf from ../name, where dir/name.ts defines it: the import is not resolved. */
  lemma ParentImportFails(defs: Defs, x: Id, b: Id, dir: string, sub: string, file: string, name: string, leaf: string,
                          symbol: Id)
    requires PlainName(dir) && PlainName(sub) && PlainName(file) && PlainName(name) && '.' !in leaf
    requires x != b && TwoFiles(defs, Ts, [dir, sub, file], x, [dir, name + ".ts"], b, leaf, symbol)
    ensures MeantFile(defs, [dir, sub], "../" + name) == Some(b)
    ensures ResolveTsJs(defs, Relation("../" + name + "." + leaf, Imports, 1, 0, ANCHOR), x) == None
  {
    var p, q, specifier := [dir, sub, file], [dir, name + ".ts"], "../" + name;
    TwoFilesAre(defs, Ts, p, x, q, b, leaf, symbol);
    PlainPath(p);
    PlainPath(q);
    ParentNotReached(defs, x, specifier);
    PlainPath([dir, sub]);
    NotDot(name);
    AboveComponents(specifier, name);
    assert [dir, name] != q && |[dir, name]| != |p|;
    MeantAbove(defs, dir, sub, name, q);
    MissedImport(defs, Relation(specifier + "." + leaf, Imports, 1, 0, ANCHOR), x, b, specifier, leaf);
  }

  lemma ParentNotReached(defs: Defs, x: Id, specifier: string)
    requires NoDots(defs) && x in defs.relPath && IsAt(specifier, "../", 0)
    ensures TsImported(defs, specifier, x) == None
  {
    ParentHasDots(specifier);
    TsModuleIff(defs, specifier, x);
  }

  lemma MeantAbove(defs: Defs, dir: string, sub: string, name: string, q: Path)
    requires !HasDots([dir, sub]) && !HasDots([name]) && Components("../" + name, "") == ["..", name]
    requires q == [dir, name + ".ts"] && q in defs.fileByPath && [dir, name] !in defs.fileByPath
    ensures MeantFile(defs, [dir, sub], "../" + name) == Some(defs.fileByPath[q])
  {
    assert [dir, sub] + ["..", name] == [dir, sub, "..", name];
    CollapsedAbove(dir, sub, name, [dir, sub, "..", name]);
    assert [dir, name][..1] == [dir] && [dir] + [name + ".ts"] == q;
    FirstCandidate(defs, [dir, name], q);
  }

  /** dir/file imports leaf from ./name, where dir/name, extension and all, defines it: the import is not resolved. */
  lemma ExactImportFails(defs: Defs, x: Id, b: Id, dir: string, file: string, name: string, leaf: string, symbol: Id)
    requires PlainName(dir) && PlainName(file) && PlainName(name) && '.' !in leaf && file != name
    requires x != b && TwoFiles(defs, Js, [dir, file], x, [dir, name], b, leaf, symbol)
    ensures MeantFile(defs, [dir], "./" + name) == Some(b)
    ensures ResolveTsJs(defs, Relation("./" + name + "." + leaf, Imports, 1, 0, ANCHOR), x) == None
  {
    var p, q, specifier := [dir, file], [dir, name], "./" + name;
    assert p[1] != q[1];
    TwoFilesAre(defs, Js, p, x, q, b, leaf, symbol);
    PlainPath(p);
    PlainPath(q);
    PlainPath([dir]);
    NotDot(name);
    BesideComponents(specifier, name);
    assert [dir] + [name] == q && p[..1] == [dir];
    CollapsedSame(q);
    MeantFileIff(defs, specifier, x);
    MissedImport(defs, Relation(specifier + "." + leaf, Imports, 1, 0, ANCHOR), x, b, specifier, leaf);
  }

  /** dir/file imports leaf from its own directory, whose index file defines it: the import is not resolved. */
  lemma DirectoryImportFails(defs: Defs, x: Id, b: Id, dir: string, file: string, leaf: string, symbol: Id)
    requires PlainName(dir) && '.' !in leaf && file != "index.ts"
    requires x != b && TwoFiles(defs, Ts, [dir, file], x, [dir, "index.ts"], b, leaf, symbol)
    ensures MeantFile(defs, [dir], ".") == Some(b)
    ensures ResolveTsJs(defs, Relation("." + "." + leaf, Imports, 1, 0, ANCHOR), x) == None
  {
    var p, q := [dir, file], [dir, "index.ts"];
    assert p[1] != q[1];
    TwoFilesAre(defs, Ts, p, x, q, b, leaf, symbol);
    PlainPath([dir]);
    Slashless(".", "");
    assert "" + "." == "." && [dir] + [] == [dir];
    CollapsedSame([dir]);
    IndexCandidate(defs, dir, b);
    MissedImport(defs, Relation("." + "." + leaf, Imports, 1, 0, ANCHOR), x, b, ".", leaf);
  }

  lemma IndexCandidate(defs: Defs, dir: string, b: Id)
    requires [dir, "index.ts"] in defs.fileByPath && defs.fileByPath[[dir, "index.ts"]] == b
    requires [dir + ".ts"] !in defs.fileByPath
    ensures TsFile(defs, [dir], TS_JS_EXTENSIONS) == Some(b)
  {
    var base, first, second := [dir], [dir + ".ts"], [dir, "index.ts"];
    assert TS_JS_EXTENSIONS[0] == ".ts" && base[..0] + [dir + ".ts"] == first;
    assert "index" + ".ts" == "index.ts" && base + ["index.ts"] == second;
    assert TsCandidates(base, ".ts") == [first, second];
    assert [first, second][1..] == [second];
    assert FirstFile(defs, [second]) == Some(b);
    assert FirstFile(defs, [first, second]) == Some(b);
  }

  lemma RootIndex(defs: Defs, b: Id)
    requires ["index.ts"] in defs.fileByPath && defs.fileByPath[["index.ts"]] == b
    ensures FirstFile(defs, ROOT_INDEXES) == Some(b)
  {
    assert ROOT_INDEXES[0] == ["index.ts"];
  }

  /** A file of the root imports leaf from ./, whose index file defines it: the import is not resolved. */
  lemma RootImportFails(defs: Defs, x: Id, b: Id, file: string, leaf: string, symbol: Id)
    requires PlainName(file) && '.' !in leaf && file != "index.ts"
    requires x != b && TwoFiles(defs, Ts, [file], x, ["index.ts"], b, leaf, symbol)
    ensures MeantFile(defs, [], "./") == Some(b)
    ensures ResolveTsJs(defs, Relation("./" + "." + leaf, Imports, 1, 0, ANCHOR), x) == None
  {
    var p, q := [file], ["index.ts"];
    assert p[0] != q[0];
    TwoFilesAre(defs, Ts, p, x, q, b, leaf, symbol);
    PlainPath(p);
    PlainPath(q);
    HereComponents("./");
    assert p[..0] == [] && p[..0] + [] == [];
    RootIndex(defs, b);
    MeantFileIff(defs, "./", x);
    MissedImport(defs, Relation("./" + "." + leaf, Imports, 1, 0, ANCHOR), x, b, "./", leaf);
  }

  lemma HereComponents(specifier: string)
    requires specifier == "./"
    ensures Relative(specifier) && Components(specifier, "") == []
  {
    assert specifier[1..] == "/" && specifier[1..][1..] == "";
    assert "" + [specifier[0]] == ".";
    assert Components("/", ".") == Component(".") + Components("", "");
  }

  /** dir/file imports leaf from .., the root, whose index file defines it: the import is not resolved. */
  lemma RootFromBelowFails(defs: Defs, x: Id, b: Id, dir: string, file: string, leaf: string, symbol: Id)
    requires PlainName(dir) && '.' !in leaf
    requires x != b && TwoFiles(defs, Ts, [dir, file], x, ["index.ts"], b, leaf, symbol)
    ensures MeantFile(defs, [dir], "..") == Some(b)
    ensures ResolveTsJs(defs, Relation(".." + "." + leaf, Imports, 1, 0, ANCHOR), x) == None
  {
    var p, q := [dir, file], ["index.ts"];
    assert |p| != |q|;
    TwoFilesAre(defs, Ts, p, x, q, b, leaf, symbol);
    Slashless("..", "");
    assert "" + ".." == ".." && ".."[0 + 1] != "./"[1];
    UpToRoot(dir);
    RootIndex(defs, b);
    MissedImport(defs, Relation(".." + "." + leaf, Imports, 1, 0, ANCHOR), x, b, "..", leaf);
  }

  lemma UpToRoot(dir: string)
    requires PlainName(dir)
    ensures Collapsed([dir] + [".."]) == []
  {
    PlainPath([dir]);
    CollapsedSame([dir]);
    var p := [dir] + [".."];
    assert p[..1] == [dir] && [dir][..0] == [];
  }
}
