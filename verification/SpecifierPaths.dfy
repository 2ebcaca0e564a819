/** Paths and candidates of the resolvers: how a specifier is taken apart, which files are tried, and in what order. */
module SpecifierPaths {
  import opened CodeIndex
  import opened Ids
  import opened Wrappers

  // ----- components

  lemma {:induction false} PartBegun(t: string, part: string)
    requires '/' !in t
    ensures Components(t, part) == Component(part + t)
    decreases |t|
  {
    if t == "" {
      assert part + t == part;
    } else {
      PartBegun(t[1..], part + [t[0]]);
      assert part + [t[0]] + t[1..] == part + t;
    }
  }

  /** A text without slashes is one component, or none if it is empty or a single dot. */
  lemma OnePart(t: string)
    requires '/' !in t
    ensures Components(t, "") == if t == "" || t == "." then [] else [t]
  {
    PartBegun(t, "");
    assert "" + t == t;
  }

  lemma {:induction false} PartsBegun(a: string, b: string, part: string)
    ensures Components(a + "/" + b, part) == Components(a, part) + Components(b, "")
    decreases |a|
  {
    var t := a + "/" + b;
    if a == "" {
      assert t[1..] == b;
    } else {
      assert t[1..] == a[1..] + "/" + b;
      if a[0] == '/' {
        PartsBegun(a[1..], b, "");
        Regroup(Component(part), Components(a[1..], ""), Components(b, ""));
      } else {
        PartsBegun(a[1..], b, part + [a[0]]);
      }
    }
  }

  lemma Regroup(x: Path, y: Path, z: Path)
    ensures x + (y + z) == x + y + z
  {
  }

  /** The components of two texts with a slash between them are those of the one and then those of the other. */
  lemma PartsJoined(a: string, b: string)
    ensures Components(a + "/" + b, "") == Components(a, "") + Components(b, "")
  {
    PartsBegun(a, b, "");
  }

  /** Joined to a path, a relative text adds its components; an absolute one leads out of the project. */
  lemma JoinIs(p: Path, t: string)
    ensures t != "" && t[0] == '/' ==> Join(p, t) == None
    ensures t == "" || t[0] != '/' ==> Join(p, t) == Some(p + Components(t, ""))
  {
  }

  // ----- the files tried for an import in TypeScript and JavaScript

  /** r is the file of the first candidate that is one. */
  ghost predicate FirstIs(defs: Defs, candidates: seq<Path>, r: Option<Id>) {
    match r
    case None => forall k :: 0 <= k < |candidates| ==> candidates[k] !in defs.fileByPath
    case Some(file) =>
      exists k :: && 0 <= k < |candidates| && candidates[k] in defs.fileByPath
                  && defs.fileByPath[candidates[k]] == file
                  && forall j :: 0 <= j < k ==> candidates[j] !in defs.fileByPath
  }

  lemma {:induction false} FirstFileIs(defs: Defs, candidates: seq<Path>)
    ensures FirstIs(defs, candidates, FirstFile(defs, candidates))
    decreases |candidates|
  {
    if candidates != [] && candidates[0] !in defs.fileByPath {
      var rest := candidates[1..];
      FirstFileIs(defs, rest);
      var r := FirstFile(defs, rest);
      if r.Some? {
        var k :| && 0 <= k < |rest| && rest[k] in defs.fileByPath && defs.fileByPath[rest[k]] == r.value
                 && forall j :: 0 <= j < k ==> rest[j] !in defs.fileByPath;
        assert candidates[k + 1] == rest[k];
        forall j | 0 <= j < k + 1 ensures candidates[j] !in defs.fileByPath {
          assert j > 0 ==> candidates[j] == rest[j - 1];
        }
      } else {
        forall k | 0 <= k < |candidates| ensures candidates[k] !in defs.fileByPath {
          assert k > 0 ==> candidates[k] == rest[k - 1];
        }
      }
    }
  }

  lemma {:induction false} FirstOfTwo(defs: Defs, a: seq<Path>, b: seq<Path>)
    ensures FirstFile(defs, a + b) == if FirstFile(defs, a).Some? then FirstFile(defs, a) else FirstFile(defs, b)
    decreases |a|
  {
    if a == [] {
      assert a + b == b;
    } else {
      assert (a + b)[1..] == a[1..] + b;
      FirstOfTwo(defs, a[1..], b);
    }
  }

  ghost function AllCandidates(base: Path, exts: seq<string>): seq<Path> {
    if exts == [] then [] else TsCandidates(base, exts[0]) + AllCandidates(base, exts[1..])
  }

  lemma {:induction false} FileOfAll(defs: Defs, base: Path, exts: seq<string>)
    ensures TsFile(defs, base, exts) == FirstFile(defs, AllCandidates(base, exts))
    decreases |exts|
  {
    if exts != [] {
      FileOfAll(defs, base, exts[1..]);
      FirstOfTwo(defs, TsCandidates(base, exts[0]), AllCandidates(base, exts[1..]));
    }
  }

  /** What is tried for dir/name, in this order: for each extension the file itself and then the index file in it. */
  ghost predicate Tried(dir: Path, name: string, tried: seq<Path>) {
    && |tried| == 12
    && Pair(dir, name, ".ts", tried[0], tried[1]) && Pair(dir, name, ".tsx", tried[2], tried[3])
    && Pair(dir, name, ".js", tried[4], tried[5]) && Pair(dir, name, ".jsx", tried[6], tried[7])
    && Pair(dir, name, ".mjs", tried[8], tried[9]) && Pair(dir, name, ".cjs", tried[10], tried[11])
  }

  ghost predicate Pair(dir: Path, name: string, ext: string, file: Path, index: Path) {
    file == dir + [name + ext] && index == dir + [name, "index" + ext]
  }

  lemma OneExtension(dir: Path, name: string, exts: seq<string>, tried: seq<Path>)
    requires exts != [] && tried == AllCandidates(dir + [name], exts)
    ensures |tried| >= 2 && Pair(dir, name, exts[0], tried[0], tried[1])
    ensures tried[2..] == AllCandidates(dir + [name], exts[1..])
  {
    var base := dir + [name];
    assert base[..|base| - 1] == dir && base + ["index" + exts[0]] == dir + [name, "index" + exts[0]];
  }

  lemma AreTried(dir: Path, name: string) returns (tried: seq<Path>)
    ensures tried == AllCandidates(dir + [name], TS_JS_EXTENSIONS) && Tried(dir, name, tried)
  {
    var e0 := TS_JS_EXTENSIONS;
    var e1, e2, e3, e4, e5, e6 := e0[1..], e0[2..], e0[3..], e0[4..], e0[5..], e0[6..];
    assert e1[1..] == e2 && e2[1..] == e3 && e3[1..] == e4 && e4[1..] == e5 && e5[1..] == e6 && e6 == [];
    tried := AllCandidates(dir + [name], e0);
    OneExtension(dir, name, e0, tried);
    OneExtension(dir, name, e1, tried[2..]);
    OneExtension(dir, name, e2, tried[2..][2..]);
    OneExtension(dir, name, e3, tried[2..][2..][2..]);
    OneExtension(dir, name, e4, tried[2..][2..][2..][2..]);
    OneExtension(dir, name, e5, tried[2..][2..][2..][2..][2..]);
    assert AllCandidates(dir + [name], e6) == [];
  }

  /** A module is the first of these twelve that is a file. */
  lemma TwelveTried(defs: Defs, dir: Path, name: string) returns (tried: seq<Path>)
    ensures Tried(dir, name, tried) && FirstIs(defs, tried, TsFile(defs, dir + [name], TS_JS_EXTENSIONS))
  {
    tried := AreTried(dir, name);
    FileOfAll(defs, dir + [name], TS_JS_EXTENSIONS);
    FirstFileIs(defs, tried);
  }

  // ----- the other files of a directory

  lemma {:induction false} NoneLeftOut(files: seq<Id>, file: Id)
    requires file !in files
    ensures Others(files, file) == files
  {
    if files != [] {
      var n := |files| - 1;
      assert files == files[..n] + [files[n]];
      NoneLeftOut(files[..n], file);
    }
  }

  /** The siblings of a file are the files of its directory in their order, without it. */
  lemma {:induction false} OthersAre(a: seq<Id>, file: Id, b: seq<Id>)
    requires file !in a && file !in b
    ensures Others(a + [file] + b, file) == a + b
    decreases |b|
  {
    if b == [] {
      assert (a + [file] + b)[..|a|] == a && a + b == a;
      NoneLeftOut(a, file);
    } else {
      var n := |b| - 1;
      assert b == b[..n] + [b[n]];
      assert (a + [file] + b)[..|a| + 1 + n] == a + [file] + b[..n];
      OthersAre(a, file, b[..n]);
      assert a + b == a + b[..n] + [b[n]];
    }
  }

  lemma SiblingsAre(defs: Defs, file: Id, a: seq<Id>, b: seq<Id>)
    requires file in defs.dirOf && defs.dirOf[file] in defs.filesInDir
    requires defs.filesInDir[defs.dirOf[file]] == a + [file] + b && file !in a && file !in b
    ensures Siblings(defs, file) == a + b
  {
    OthersAre(a, file, b);
  }
}
