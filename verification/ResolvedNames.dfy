/** What each language's rules do find: the same file first, and then where its imports and calls lead. */
module ResolvedNames {
  import opened CodeIndex
  import opened Ids
  import opened SpecifierPaths
  import opened Text
  import opened Wrappers

  /** What the file defines under this name, if there is a file. */
  function DefinedIn(defs: Defs, file: Option<Id>, name: string): Option<Id> {
    if file.Some? then SymbolOf(defs, file.value, name) else None
  }

  // ----- the same file

  /** In every language but Python a name of the file itself is that symbol. */
  lemma OwnNameFirst(defs: Defs, rel: Relation, language: Language, file: Id)
    requires language != Py && language != Unsupported && SymbolOf(defs, file, rel.target).Some?
    ensures Resolve(defs, rel, language, file) == SymbolOf(defs, file, rel.target)
  {
  }

  /** In Python that holds of calls that do not begin with a dot; what is neither import nor call is not resolved. */
  lemma PythonOwnName(defs: Defs, rel: Relation, file: Id)
    ensures rel.target != "" && rel.target[0] == '.' ==> Resolve(defs, rel, Py, file) == None
    ensures rel.kind == OtherKind ==> Resolve(defs, rel, Py, file) == None
    ensures rel.kind == Calls && (rel.target == "" || rel.target[0] != '.') ==>
      SymbolOf(defs, file, rel.target).Some? ==> Resolve(defs, rel, Py, file) == SymbolOf(defs, file, rel.target)
  {
  }

  /** Ruby, PHP, C and C++ know nothing else, and without rules nothing is found. */
  lemma OwnNameOnly(defs: Defs, rel: Relation, language: Language, file: Id)
    ensures language == Rb || language == Php || language == C || language == Cpp ==>
      Resolve(defs, rel, language, file) == SymbolOf(defs, file, rel.target)
    ensures Resolve(defs, rel, Unsupported, file) == None
  {
  }

  // ----- Python

  lemma PythonImports(defs: Defs, rel: Relation, file: Id, mod: string, leaf: string)
    requires rel.kind == Imports && rel.target == mod + "." + leaf && '.' !in leaf && mod != "" && mod[0] != '.'
    ensures Resolve(defs, rel, Py, file)
         == DefinedIn(defs, if mod in defs.fileByModule then Some(defs.fileByModule[mod]) else None, leaf)
  {
    PythonImportExact(defs, rel, file, mod, leaf);
  }

  lemma PythonSelfCalls(defs: Defs, rel: Relation, file: Id, cls: string, method': string, leaf: string)
    requires rel.kind == Calls && rel.target == "self." + leaf && rel.source == cls + "." + method' && '.' !in method'
    requires cls != "" && SymbolOf(defs, file, rel.target).None?
    ensures Resolve(defs, rel, Py, file) == SymbolOf(defs, file, cls + "." + leaf)
  {
    PythonSelfExact(defs, rel, file, cls, method', leaf);
  }

  /** A source that is no method of a class, or has an empty class name, is none of self. */
  lemma PythonNoClass(defs: Defs, rel: Relation, file: Id)
    requires rel.kind == Calls && IsAt(rel.target, "self.", 0) && SymbolOf(defs, file, rel.target).None?
    requires forall k :: 1 <= k < |rel.source| ==> rel.source[k] != '.'
    ensures Resolve(defs, rel, Py, file) == None
  {
    assert "self."[0] == 's' && rel.target[0 + 0] == 's';
    var i := RFind(rel.source, ".");
    assert i >= 0 ==> rel.source[i + 0] == "."[0];
  }

  // ----- TypeScript and JavaScript

  /** An import resolves to what the file it means defines under the imported name, as far as that file is found. */
  lemma ImportResolves(defs: Defs, rel: Relation, language: Language, file: Id, specifier: string, leaf: string)
    requires language == Ts || language == Js
    requires rel.kind == Imports && rel.target == specifier + "." + leaf && '.' !in leaf && Local(specifier)
    requires NoDots(defs) && OnePath(defs) && file in defs.relPath && !HasDots(Parent(defs.relPath[file]))
    requires SymbolOf(defs, file, rel.target).None?
    ensures var dir, parts := Parent(defs.relPath[file]), Components(specifier, "");
      Relative(specifier) && !HasDots(parts) && dir + parts != [] && dir + parts !in defs.fileByPath ==>
        Resolve(defs, rel, language, file) == DefinedIn(defs, MeantFile(defs, dir, specifier), leaf)
    ensures MeantFile(defs, Parent(defs.relPath[file]), specifier) == None ==>
      Resolve(defs, rel, language, file) == None
  {
    LastDot(specifier, leaf);
    assert rel.target[..|specifier|] == specifier && rel.target[|specifier| + 1..] == leaf;
    MeantFileIff(defs, specifier, file);
  }

  /** A call, or an import of a package, is no symbol of another file. */
  lemma NothingElseInTs(defs: Defs, rel: Relation, language: Language, file: Id, specifier: string, leaf: string)
    requires language == Ts || language == Js
    requires rel.target == specifier + "." + leaf && '.' !in leaf && (rel.kind != Imports || !Relative(specifier))
    ensures Resolve(defs, rel, language, file) == SymbolOf(defs, file, rel.target)
  {
    LastDot(specifier, leaf);
    assert rel.target[..|specifier|] == specifier;
  }

  /** dir/file imports leaf from ./name, where dir/name.ts defines it: the import is that symbol. */
  lemma BesideImportResolves(defs: Defs, x: Id, b: Id, dir: string, file: string, name: string, leaf: string,
                             symbol: Id)
    requires PlainName(dir) && PlainName(file) && PlainName(name) && '.' !in leaf
    requires file != name && file != name + ".ts"
    requires x != b && TwoFiles(defs, Ts, [dir, file], x, [dir, name + ".ts"], b, leaf, symbol)
    ensures Resolve(defs, Relation("./" + name + "." + leaf, Imports, 1, 0, ANCHOR), Ts, x) == Some(symbol)
  {
    var p, q, r, specifier := [dir, file], [dir, name + ".ts"], [dir, name], "./" + name;
    TwoBeside(defs, x, b, p, q, r, leaf, symbol, dir, file, name);
    PlainPath([dir]);
    NotDot(name);
    BesideComponents(specifier, name);
    MeantBeside(defs, dir, name, q);
    Beside(defs, Relation(specifier + "." + leaf, Imports, 1, 0, ANCHOR), x, b, [dir], specifier, name, leaf, symbol);
  }

  lemma TwoBeside(defs: Defs, x: Id, b: Id, p: Path, q: Path, r: Path, leaf: string, symbol: Id, dir: string,
                  file: string, name: string)
    requires p == [dir, file] && q == [dir, name + ".ts"] && r == [dir] + [name] && file != name && file != name + ".ts"
    requires x != b && TwoFiles(defs, Ts, p, x, q, b, leaf, symbol)
    requires PlainName(dir) && PlainName(file) && PlainName(name)
    ensures defs.symbols == map[b := map[leaf := symbol]] && NoDots(defs) && OnePath(defs)
    ensures x in defs.relPath && Parent(defs.relPath[x]) == [dir]
    ensures q in defs.fileByPath && defs.fileByPath[q] == b && r !in defs.fileByPath
  {
    assert p[1] != q[1];
    TwoFilesAre(defs, Ts, p, x, q, b, leaf, symbol);
    PlainPath(p);
    PlainPath(q);
    NeitherIs(p, q, r);
    assert Parent(p) == [dir];
  }

  lemma NeitherIs(p: Path, q: Path, r: Path)
    requires |p| == |q| == |r| == 2 && p[1] != r[1] && q[1] == r[1] + ".ts"
    ensures r != p && r != q
  {
  }

  lemma Beside(defs: Defs, rel: Relation, x: Id, b: Id, dir: Path, specifier: string, name: string, leaf: string,
               symbol: Id)
    requires rel.kind == Imports && rel.target == specifier + "." + leaf && '.' !in leaf && Relative(specifier)
    requires defs.symbols == map[b := map[leaf := symbol]] && x != b && NoDots(defs) && OnePath(defs)
    requires x in defs.relPath && Parent(defs.relPath[x]) == dir && Components(specifier, "") == [name]
    requires !HasDots(dir) && !HasDots([name]) && dir + [name] !in defs.fileByPath
    requires MeantFile(defs, dir, specifier) == Some(b)
    ensures Resolve(defs, rel, Ts, x) == Some(symbol)
  {
    ImportResolves(defs, rel, Ts, x, specifier, leaf);
  }

  lemma MeantBeside(defs: Defs, dir: string, name: string, q: Path)
    requires !HasDots([dir]) && !HasDots([name]) && Components("./" + name, "") == [name]
    requires q == [dir, name + ".ts"] && q in defs.fileByPath && [dir, name] !in defs.fileByPath
    ensures MeantFile(defs, [dir], "./" + name) == Some(defs.fileByPath[q])
  {
    assert [dir] + [name] == [dir, name] && [dir, name][..1] == [dir] && [dir] + [name + ".ts"] == q;
    DotsInside([dir], [name]);
    CollapsedSame([dir, name]);
    FirstCandidate(defs, [dir, name], q);
  }

  // ----- Go and Java

  /** A call is the first symbol of that name in the other files of the directory; an import is not looked for there. */
  lemma PackageCalls(defs: Defs, rel: Relation, language: Language, file: Id) returns (k: nat)
    requires (language == Go || language == Java) && SymbolOf(defs, file, rel.target).None?
    ensures rel.kind != Calls ==> Resolve(defs, rel, language, file) == None
    ensures rel.kind == Calls ==>
      && k <= |Siblings(defs, file)|
      && Resolve(defs, rel, language, file)
         == (if k < |Siblings(defs, file)| then SymbolOf(defs, Siblings(defs, file)[k], rel.target) else None)
      && (k < |Siblings(defs, file)| ==> SymbolOf(defs, Siblings(defs, file)[k], rel.target).Some?)
      && forall j :: 0 <= j < k ==> SymbolOf(defs, Siblings(defs, file)[j], rel.target).None?
  {
    k := FirstDefiningExact(defs, Siblings(defs, file), rel.target);
  }

  // ----- Rust

  lemma {:induction false} ColonsStay(t: string, by': string)
    requires forall k :: 0 <= k < |t| - 1 ==> !(t[k] == ':' && t[k + 1] == ':')
    ensures ReplaceColons(t, by') == t
    decreases |t|
  {
    if t != "" {
      assert forall k :: 0 <= k < |t[1..]| ==> t[1..][k] == t[k + 1];
      ColonsStay(t[1..], by');
    }
  }

  lemma LastColons(front: string, leaf: string)
    requires ':' !in leaf
    ensures var t := front + "::" + leaf; RFind(t, "::") == |front| && t[..|front|] == front && t[|front| + 2..] == leaf
  {
    var t := front + "::" + leaf;
    assert "::"[0] == "::"[1] == ':';
    assert IsAt(t, "::", |front|);
    forall k | |front| < k ensures !IsAt(t, "::", k) {
      if k + 2 <= |t| {
        assert t[k + 1] == leaf[k + 1 - |front| - 2];
      }
    }
  }

  /** The parts with a separator between them. */
  function Between(parts: Path, sep: string): string {
    if parts == [] then "" else if |parts| == 1 then parts[0] else parts[0] + sep + Between(parts[1..], sep)
  }

  lemma {:induction false} FirstColons(mod: string, rest: string, by': string)
    requires ':' !in mod
    ensures ReplaceColons(mod + "::" + rest, by') == mod + by' + ReplaceColons(rest, by')
    decreases |mod|
  {
    var t := mod + "::" + rest;
    if mod == "" {
      assert t[0] == t[1] == ':' && t[2..] == rest;
      assert mod + by' == by';
    } else {
      var tail := mod[1..];
      assert t[0] == mod[0] != ':' && t[1..] == tail + "::" + rest;
      FirstColons(tail, rest, by');
      assert ReplaceColons(t, by') == [t[0]] + (tail + by' + ReplaceColons(rest, by'));
      assert [mod[0]] + tail == mod;
    }
  }

  /** Every pair of colons between the parts of a path becomes the other separator. */
  lemma {:induction false} ColonsBetween(parts: Path, by': string)
    requires parts != [] && forall k :: 0 <= k < |parts| ==> ':' !in parts[k]
    ensures ReplaceColons(Between(parts, "::"), by') == Between(parts, by')
    decreases |parts|
  {
    if |parts| == 1 {
      ColonsStay(parts[0], by');
    } else {
      ColonsBetween(parts[1..], by');
      FirstColons(parts[0], Between(parts[1..], "::"), by');
    }
  }

  lemma {:induction false} LastBetween(parts: Path, last: string, sep: string)
    requires parts != []
    ensures Between(parts + [last], sep) == Between(parts, sep) + sep + last
    decreases |parts|
  {
    if |parts| == 1 {
      assert (parts + [last])[1..] == [last];
    } else {
      assert (parts + [last])[1..] == parts[1..] + [last];
      LastBetween(parts[1..], last, sep);
      var head, rest := parts[0] + sep, Between(parts[1..], sep);
      assert head + (rest + sep + last) == head + rest + sep + last;
    }
  }

  lemma {:induction false} PartsBetween(parts: Path)
    requires parts != [] && forall k :: 0 <= k < |parts| ==> PlainName(parts[k])
    ensures Components(Between(parts, "/"), "") == parts
    ensures Between(parts, "/") != "" && Between(parts, "/")[0] != '/'
    decreases |parts|
  {
    OnePart(parts[0]);
    assert parts[0] != ".";
    if |parts| > 1 {
      PartsBetween(parts[1..]);
      PartsJoined(parts[0], Between(parts[1..], "/"));
    }
  }

  lemma JoinedParts(dir: Path, parts: Path)
    requires parts != [] && forall k :: 0 <= k < |parts| ==> PlainName(parts[k])
    ensures Join(dir, Between(parts, "/")) == Some(dir + parts)
  {
    PartsBetween(parts);
  }

  lemma {:induction false} WithSuffix(parts: Path, name: string, suffix: string, sep: string)
    ensures Between(parts + [name], sep) + suffix == Between(parts + [name + suffix], sep)
    decreases |parts|
  {
    if parts != [] {
      LastBetween(parts, name, sep);
      LastBetween(parts, name + suffix, sep);
      var head := Between(parts, sep) + sep;
      assert head + name + suffix == head + (name + suffix);
    }
  }

  /**
    A path a::b::leaf that is no name of the file is its name a.b.leaf, if it has that; else a call is the leaf of the
    file a/b.rs beside the file or, if that does not define it, of a/b/mod.rs.
   */
  lemma RustPaths(defs: Defs, rel: Relation, file: Id, parts: Path, mod: string, leaf: string)
    requires rel.target == Between(parts + [mod, leaf], "::") && SymbolOf(defs, file, rel.target).None?
    requires PlainName(mod) && ':' !in mod && ':' !in leaf && file in defs.relPath
    requires forall k :: 0 <= k < |parts| ==> PlainName(parts[k]) && ':' !in parts[k]
    ensures var dir := Parent(defs.relPath[file]);
      var dotted := SymbolOf(defs, file, Between(parts + [mod, leaf], "."));
      var beside := DefinedIn(defs, FileAt(defs, dir + parts + [mod + ".rs"]), leaf);
      Resolve(defs, rel, Rs, file)
        == if dotted.Some? then dotted
           else if rel.kind != Calls then None
           else if beside.Some? then beside
           else DefinedIn(defs, FileAt(defs, dir + parts + [mod, "mod.rs"]), leaf)
  {
    OneByOne(parts, mod, leaf);
    var mods, front := parts + [mod], Between(parts + [mod], "::");
    RustLeaf(defs, rel, file, mods, leaf, Between(parts + [mod, leaf], "."), front);
    RustFiles(defs, Parent(defs.relPath[file]), front, parts, mod, leaf);
  }

  lemma OneByOne(parts: Path, mod: string, leaf: string)
    requires ':' !in mod && forall k :: 0 <= k < |parts| ==> ':' !in parts[k]
    ensures parts + [mod, leaf] == parts + [mod] + [leaf]
    ensures forall k :: 0 <= k < |parts + [mod]| ==> ':' !in (parts + [mod])[k]
  {
  }

  lemma RustLeaf(defs: Defs, rel: Relation, file: Id, mods: Path, leaf: string, dotted: string, front: string)
    requires mods != [] && ':' !in leaf && forall k :: 0 <= k < |mods| ==> ':' !in mods[k]
    requires rel.target == Between(mods + [leaf], "::") && SymbolOf(defs, file, rel.target).None?
    requires dotted == Between(mods + [leaf], ".") && front == Between(mods, "::")
    ensures ReplaceColons(front, "/") == Between(mods, "/")
    ensures Resolve(defs, rel, Rs, file)
         == if SymbolOf(defs, file, dotted).Some? then SymbolOf(defs, file, dotted)
            else if rel.kind != Calls || file !in defs.relPath then None
            else RustItem(defs, Parent(defs.relPath[file]), front, leaf)
  {
    Colons(mods, leaf, rel.target, front);
    RustSplit(defs, rel, file, front, leaf, dotted);
  }

  lemma Colons(mods: Path, leaf: string, target: string, front: string)
    requires mods != [] && ':' !in leaf && forall k :: 0 <= k < |mods| ==> ':' !in mods[k]
    requires target == Between(mods + [leaf], "::") && front == Between(mods, "::")
    ensures target == front + "::" + leaf
    ensures ReplaceColons(target, ".") == Between(mods + [leaf], ".")
    ensures ReplaceColons(front, "/") == Between(mods, "/")
  {
    LastBetween(mods, leaf, "::");
    ColonsBetween(mods + [leaf], ".");
    ColonsBetween(mods, "/");
  }

  lemma RustSplit(defs: Defs, rel: Relation, file: Id, front: string, leaf: string, dotted: string)
    requires rel.target == front + "::" + leaf && ':' !in leaf && SymbolOf(defs, file, rel.target).None?
    requires dotted == ReplaceColons(rel.target, ".")
    ensures Resolve(defs, rel, Rs, file)
         == if SymbolOf(defs, file, dotted).Some? then SymbolOf(defs, file, dotted)
            else if rel.kind != Calls || file !in defs.relPath then None
            else RustItem(defs, Parent(defs.relPath[file]), front, leaf)
  {
    LastColons(front, leaf);
  }

  lemma RustFiles(defs: Defs, dir: Path, front: string, parts: Path, mod: string, leaf: string)
    requires PlainName(mod) && forall k :: 0 <= k < |parts| ==> PlainName(parts[k])
    requires ReplaceColons(front, "/") == Between(parts + [mod], "/")
    ensures var beside := DefinedIn(defs, FileAt(defs, dir + parts + [mod + ".rs"]), leaf);
      RustItem(defs, dir, front, leaf)
        == if beside.Some? then beside else DefinedIn(defs, FileAt(defs, dir + parts + [mod, "mod.rs"]), leaf)
  {
    WithSuffix(parts, mod, ".rs", "/");
    JoinedParts(dir, parts + [mod]);
    JoinedParts(dir, parts + [mod + ".rs"]);
    assert dir + (parts + [mod + ".rs"]) == dir + parts + [mod + ".rs"];
    assert dir + (parts + [mod]) + ["mod.rs"] == dir + parts + [mod, "mod.rs"];
  }

  /** A path that begins with colons and has more of them leads to no other file. */
  lemma RustFromNowhere(defs: Defs, rel: Relation, file: Id, parts: Path, leaf: string)
    requires parts != [] && rel.target == Between([""] + parts + [leaf], "::") && ':' !in leaf
    requires forall k :: 0 <= k < |parts| ==> ':' !in parts[k]
    requires SymbolOf(defs, file, rel.target).None?
    requires SymbolOf(defs, file, Between([""] + parts + [leaf], ".")).None?
    ensures Resolve(defs, rel, Rs, file) == None
  {
    var all := [""] + parts;
    var front := Between(all, "::");
    Colons(all, leaf, rel.target, front);
    RustSplit(defs, rel, file, front, leaf, Between([""] + parts + [leaf], "."));
    assert all[1..] == parts;
    NotJoined(ReplaceColons(front, "/"), Between(parts, "/"));
  }

  lemma NotJoined(path: string, rest: string)
    requires path == "" + "/" + rest
    ensures forall dir :: Join(dir, path) == None && Join(dir, path + ".rs") == None
  {
    assert path[0] == '/' && (path + ".rs")[0] == '/';
  }

  /** One that has no others leads to mod.rs beside the file, or to the file that has only an extension for a name. */
  lemma RustFromHere(defs: Defs, rel: Relation, file: Id, leaf: string)
    requires rel.target == "::" + leaf && ':' !in leaf && file in defs.relPath
    requires SymbolOf(defs, file, rel.target).None?
    ensures var dir := Parent(defs.relPath[file]);
      var dotted := SymbolOf(defs, file, "." + leaf);
      var beside := DefinedIn(defs, FileAt(defs, dir + [".rs"]), leaf);
      Resolve(defs, rel, Rs, file)
        == if dotted.Some? then dotted
           else if rel.kind != Calls then None
           else if beside.Some? then beside
           else DefinedIn(defs, FileAt(defs, dir + ["mod.rs"]), leaf)
  {
    assert "" + "::" + leaf == "::" + leaf && "" + "." + leaf == "." + leaf;
    FirstColons("", leaf, ".");
    ColonsStay(leaf, ".");
    RustSplit(defs, rel, file, "", leaf, "." + leaf);
    HereFiles(defs, Parent(defs.relPath[file]), leaf);
  }

  lemma HereFiles(defs: Defs, dir: Path, leaf: string)
    ensures var beside := DefinedIn(defs, FileAt(defs, dir + [".rs"]), leaf);
      RustItem(defs, dir, "", leaf)
        == if beside.Some? then beside else DefinedIn(defs, FileAt(defs, dir + ["mod.rs"]), leaf)
  {
    OnePart("");
    OnePart(".rs");
    assert dir + [] == dir && "" + ".rs" == ".rs";
  }

  function FileAt(defs: Defs, path: Path): Option<Id> {
    if path in defs.fileByPath then Some(defs.fileByPath[path]) else None
  }

  lemma PlainJoin(dir: Path, name: string)
    requires PlainName(name)
    ensures Join(dir, name) == Some(dir + [name])
  {
    Slashless(name, "");
    assert "" + name == name;
  }
}
