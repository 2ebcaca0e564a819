/**
  The migration runner: two phases per file, interrupted and restarted any number of times.
 */
module Migrations {
  import opened Ids

  type Text = Id
  type FileName = Id

  /** A migration file, in file-name order: its version, its CREATE VIRTUAL statements, and all its other statements. */
  datatype File = File(name: FileName, version: int, virtuals: seq<Text>, others: seq<Text>)

  /** One phase-B statement, as the log of a database records it. */
  datatype Entry = Entry(file: FileName, text: Text)

  /** What survives a crash: user_version, the phase-B statements applied so far, and the virtual tables. */
  datatype Durable = Durable(version: int, log: seq<Entry>, virtuals: set<Text>)

  const FRESH := Durable(0, [], {})

  function Entries(f: File): (r: seq<Entry>)
    ensures |r| == |f.others| && forall i :: 0 <= i < |r| ==> r[i] == Entry(f.name, f.others[i])
  {
    seq(|f.others|, i requires 0 <= i < |f.others| => Entry(f.name, f.others[i]))
  }

  function AsSet(s: seq<Text>): set<Text> {
    set t | t in s
  }

  // ----- one run of the migrator

  /** A file applied without interruption. */
  function Applied(f: File, d: Durable): Durable {
    Durable(f.version, d.log + Entries(f), d.virtuals + AsSet(f.virtuals))
  }

  /** How many statements a file executes: its own, BEGIN, the version pragma and COMMIT. */
  function Cost(f: File): nat {
    |f.virtuals| + |f.others| + 3
  }

  datatype Outcome = Outcome(durable: Durable, completed: bool)

  /**
    A run from file i on, that dies once `fuel` statements have been executed.  `current` is the
    version read when the run began.  A file that does not reach its COMMIT leaves only virtual tables behind.
   */
  function RunFrom(files: seq<File>, i: nat, current: int, d: Durable, fuel: nat): Outcome
    requires i <= |files|
    decreases |files| - i
  {
    if i == |files| then Outcome(d, true)
    else if files[i].version <= current then RunFrom(files, i + 1, current, d, fuel)
    else if fuel < Cost(files[i]) then
      var n := if fuel < |files[i].virtuals| then fuel else |files[i].virtuals|;
      Outcome(d.(virtuals := d.virtuals + AsSet(files[i].virtuals[..n])), false)
    else RunFrom(files, i + 1, current, Applied(files[i], d), fuel - Cost(files[i]))
  }

  function Attempt(files: seq<File>, d: Durable, fuel: nat): Outcome {
    RunFrom(files, 0, d.version, d, fuel)
  }

  /** A run that nothing interrupts, over files i..n. */
  function Uninterrupted(files: seq<File>, i: nat, n: nat, current: int, d: Durable): Durable
    requires i <= n <= |files|
    decreases n - i
  {
    if i == n then d
    else if files[i].version <= current then Uninterrupted(files, i + 1, n, current, d)
    else Uninterrupted(files, i + 1, n, current, Applied(files[i], d))
  }

  /** Restarts after crashes, one fuel per run. */
  function Restarts(files: seq<File>, d: Durable, fuels: seq<nat>): Durable
    decreases |fuels|
  {
    if fuels == [] then d else Restarts(files, Attempt(files, d, fuels[0]).durable, fuels[1..])
  }

  /** The database a run that completes leaves behind. */
  function Finished(files: seq<File>, d: Durable): Durable {
    Uninterrupted(files, 0, |files|, d.version, d)
  }

  // ----- the runner, statement by statement

  /** A database connection whose process dies when its fuel runs out. */
  class Connection {
    var durable: Durable
    var inTransaction: bool
    var pending: Durable
    var fuel: nat

    constructor (d: Durable, fuel: nat)
      ensures durable == d && !inTransaction && this.fuel == fuel
    {
      durable, inTransaction, pending, this.fuel := d, false, d, fuel;
    }

    method Spend() returns (ok: bool)
      modifies this`fuel
      ensures ok <==> old(fuel) > 0
      ensures fuel == if ok then old(fuel) - 1 else 0
    {
      ok := fuel > 0;
      if ok {
        fuel := fuel - 1;
      }
    }

    method Begin() returns (ok: bool)
      requires !inTransaction
      modifies this`fuel, this`inTransaction, this`pending
      ensures ok <==> old(fuel) > 0
      ensures fuel == if ok then old(fuel) - 1 else 0
      ensures inTransaction == ok && (ok ==> pending == durable)
    {
      ok := Spend();
      if ok {
        inTransaction, pending := true, durable;
      }
    }

    /** Outside a transaction: takes effect at once. */
    method CreateVirtual(text: Text) returns (ok: bool)
      requires !inTransaction
      modifies this`fuel, this`durable
      ensures ok <==> old(fuel) > 0
      ensures fuel == if ok then old(fuel) - 1 else 0
      ensures durable == if ok then old(durable).(virtuals := old(durable).virtuals + {text}) else old(durable)
    {
      ok := Spend();
      if ok {
        durable := durable.(virtuals := durable.virtuals + {text});
      }
    }

    method Execute(e: Entry) returns (ok: bool)
      requires inTransaction
      modifies this`fuel, this`pending
      ensures ok <==> old(fuel) > 0
      ensures fuel == if ok then old(fuel) - 1 else 0
      ensures pending == if ok then old(pending).(log := old(pending).log + [e]) else old(pending)
    {
      ok := Spend();
      if ok {
        pending := pending.(log := pending.log + [e]);
      }
    }

    method SetUserVersion(version: int) returns (ok: bool)
      requires inTransaction
      modifies this`fuel, this`pending
      ensures ok <==> old(fuel) > 0
      ensures fuel == if ok then old(fuel) - 1 else 0
      ensures pending == if ok then old(pending).(version := version) else old(pending)
    {
      ok := Spend();
      if ok {
        pending := pending.(version := version);
      }
    }

    method Commit() returns (ok: bool)
      requires inTransaction
      modifies this`fuel, this`durable, this`inTransaction
      ensures ok <==> old(fuel) > 0
      ensures fuel == if ok then old(fuel) - 1 else 0
      ensures ok ==> durable == pending && !inTransaction
      ensures !ok ==> durable == old(durable) && inTransaction
    {
      ok := Spend();
      if ok {
        durable, inTransaction := pending, false;
      }
    }

    /** After an error, or by the database itself after a crash: what was not committed is gone. */
    method Rollback()
      modifies this`inTransaction
      ensures !inTransaction
    {
      inTransaction := false;
    }

    /** Phase A of one file. */
    method PhaseA(f: File) returns (ok: bool)
      requires !inTransaction
      modifies this`fuel, this`durable
      ensures ok <==> old(fuel) >= |f.virtuals|
      ensures fuel == if ok then old(fuel) - |f.virtuals| else 0
      ensures var n := if ok then |f.virtuals| else old(fuel);
        durable == old(durable).(virtuals := old(durable).virtuals + AsSet(f.virtuals[..n]))
    {
      assert AsSet(f.virtuals[..0]) == {};
      for i := 0 to |f.virtuals|
        invariant fuel == old(fuel) - i
        invariant durable == old(durable).(virtuals := old(durable).virtuals + AsSet(f.virtuals[..i]))
      {
        assert f.virtuals[..i + 1] == f.virtuals[..i] + [f.virtuals[i]];
        var done := CreateVirtual(f.virtuals[i]);
        if !done {
          return false;
        }
      }
      ok := true;
    }

    /** Phase B of one file: all of it, or nothing. */
    method PhaseB(f: File) returns (ok: bool)
      requires !inTransaction
      modifies this
      ensures !inTransaction
      ensures ok <==> old(fuel) >= |f.others| + 3
      ensures ok ==> fuel == old(fuel) - (|f.others| + 3)
      ensures durable == if ok then Durable(f.version, old(durable).log + Entries(f), old(durable).virtuals)
          else old(durable)
    {
      ok := Begin();
      var i := 0;
      while ok && i < |f.others|
        invariant i <= |f.others| && durable == old(durable) && inTransaction == (ok || old(fuel) > 0)
        invariant ok ==> fuel == old(fuel) - 1 - i
        invariant !ok ==> old(fuel) < |f.others| + 3
        invariant ok ==> pending == old(durable).(log := old(durable).log + Entries(f)[..i])
      {
        assert Entries(f)[..i + 1] == Entries(f)[..i] + [Entries(f)[i]];
        ok := Execute(Entry(f.name, f.others[i]));
        i := i + 1;
      }
      assert Entries(f)[..|f.others|] == Entries(f);
      if ok {
        ok := SetUserVersion(f.version);
      }
      if ok {
        ok := Commit();
      }
      if !ok {
        Rollback();
      }
    }

    /** The runner does what RunFrom says, whatever statement it dies at. */
    method Migrate(files: seq<File>) returns (completed: bool)
      requires !inTransaction
      modifies this
      ensures Outcome(durable, completed) == Attempt(files, old(durable), old(fuel))
      ensures !inTransaction
    {
      var current := durable.version;
      for i := 0 to |files|
        invariant !inTransaction
        invariant RunFrom(files, i, current, durable, fuel) == Attempt(files, old(durable), old(fuel))
      {
        if files[i].version <= current {
          continue;
        }
        ghost var d, n := durable, fuel;
        var ok := PhaseA(files[i]);
        if !ok {
          return false;
        }
        assert files[i].virtuals[..|files[i].virtuals|] == files[i].virtuals;
        ok := PhaseB(files[i]);
        if !ok {
          return false;
        }
      }
      completed := true;
    }
  }

  // ----- what the version means

  /** The phase-B statements of files i..n, in order. */
  function All(files: seq<File>, n: nat): seq<Entry>
    requires n <= |files|
  {
    if n == 0 then [] else All(files, n - 1) + Entries(files[n - 1])
  }

  /** The phase-B statements of the files up to version v, each once and in order. */
  function UpTo(files: seq<File>, n: nat, v: int): seq<Entry>
    requires n <= |files|
  {
    if n == 0 then []
    else UpTo(files, n - 1, v) + if files[n - 1].version <= v then Entries(files[n - 1]) else []
  }

  /** user_version says exactly which phase-B statements have been applied. */
  ghost predicate VersionIsExact(files: seq<File>, d: Durable) {
    d.version >= 0 && d.log == UpTo(files, |files|, d.version)
  }

  ghost predicate DistinctNames(files: seq<File>) {
    forall i, j :: 0 <= i < j < |files| ==> files[i].name != files[j].name
  }

  /** A file with something to do in phase B has a positive version. */
  ghost predicate Numbered(f: File) {
    f.others != [] ==> f.version > 0
  }

  /** File-name order agrees with version order, as far as it shows: a is applied before b. */
  ghost predicate InOrder(a: File, b: File) {
    a.version > 0 && b.version > 0 ==>
      && (b.others != [] ==> a.version < b.version)
      && (a.others != [] ==> a.version <= b.version)
  }

  ghost predicate Orderly(files: seq<File>) {
    && (forall i :: 0 <= i < |files| ==> Numbered(files[i]))
    && forall i, j :: 0 <= i < j < |files| ==> InOrder(files[i], files[j])
  }

  /** After files 0..i: everything applied lies before i, everything after i is above the version. */
  ghost predicate Between(files: seq<File>, i: nat, current: int, d: Durable)
    requires i <= |files|
  {
    && 0 <= current <= d.version
    && d.log == UpTo(files, |files|, d.version)
    && (d.version == current || exists m :: 0 <= m < i && d.version == files[m].version)
    && (forall j :: 0 <= j < i && files[j].others != [] ==> files[j].version <= d.version)
  }

  lemma {:induction false} UpToSame(files: seq<File>, n: nat, v: int, w: int)
    requires n <= |files|
    requires forall j :: 0 <= j < n && files[j].others != [] ==> (files[j].version <= v <==> files[j].version <= w)
    ensures UpTo(files, n, v) == UpTo(files, n, w)
  {
    if n > 0 {
      UpToSame(files, n - 1, v, w);
      assert files[n - 1].others == [] ==> Entries(files[n - 1]) == [];
    }
  }

  /** The next version adds exactly the next file. */
  lemma {:induction false} UpToNext(files: seq<File>, n: nat, i: nat, v: int)
    requires i < n <= |files| && files[i].version > v
    requires forall j :: 0 <= j < i && files[j].others != [] ==> files[j].version <= v
    requires forall j :: i < j < n && files[j].others != [] ==> files[j].version > files[i].version
    ensures UpTo(files, n, files[i].version) == UpTo(files, n, v) + Entries(files[i])
  {
    if n == i + 1 {
      UpToSame(files, i, v, files[i].version);
    } else {
      UpToNext(files, n - 1, i, v);
      assert files[n - 1].others == [] ==> Entries(files[n - 1]) == [];
    }
  }

  lemma ApplyKeepsBetween(files: seq<File>, i: nat, current: int, d: Durable)
    requires Orderly(files) && i < |files| && files[i].version > current && Between(files, i, current, d)
    requires files[i].version > d.version || files[i].others == []
    ensures Between(files, i + 1, current, Applied(files[i], d))
  {
    assert Numbered(files[i]);
    forall j | 0 <= j < i && files[j].others != []
      ensures files[j].version <= files[i].version
    {
      assert InOrder(files[j], files[i]) && Numbered(files[j]);
    }
    forall j | i < j < |files| && files[j].others != []
      ensures files[j].version > files[i].version
    {
      assert InOrder(files[i], files[j]) && Numbered(files[j]);
    }
    if files[i].version > d.version {
      UpToNext(files, |files|, i, d.version);
    } else {
      assert Entries(files[i]) == [];
      forall j | 0 <= j < |files| && files[j].others != []
        ensures files[j].version <= d.version <==> files[j].version <= files[i].version
      {
        if j > i && d.version != current {
          var m :| 0 <= m < i && d.version == files[m].version;
          assert InOrder(files[m], files[j]) && Numbered(files[j]);
        }
      }
      UpToSame(files, |files|, d.version, files[i].version);
    }
  }

  lemma NextIsAbove(files: seq<File>, i: nat, current: int, d: Durable)
    requires Orderly(files) && i < |files| && files[i].version > current && Between(files, i, current, d)
    ensures files[i].version > d.version || files[i].others == []
  {
    if d.version != current {
      var m :| 0 <= m < i && d.version == files[m].version;
      assert InOrder(files[m], files[i]) && Numbered(files[i]);
    }
  }

  /** However far a run gets, the version stays exact. */
  lemma {:induction false} RunKeepsExact(files: seq<File>, i: nat, current: int, d: Durable, fuel: nat)
    requires Orderly(files) && i <= |files| && Between(files, i, current, d)
    ensures VersionIsExact(files, RunFrom(files, i, current, d, fuel).durable)
    decreases |files| - i
  {
    if i < |files| {
      if files[i].version <= current {
        RunKeepsExact(files, i + 1, current, d, fuel);
      } else if fuel >= Cost(files[i]) {
        NextIsAbove(files, i, current, d);
        ApplyKeepsBetween(files, i, current, d);
        RunKeepsExact(files, i + 1, current, Applied(files[i], d), fuel - Cost(files[i]));
      }
    }
  }

  /**
    Any number of crashes at any step, and restarts: user_version = v means exactly the statements of the files up to
    v.
   */
  lemma {:induction false} RestartsKeepExact(files: seq<File>, d: Durable, fuels: seq<nat>)
    requires Orderly(files) && VersionIsExact(files, d)
    ensures VersionIsExact(files, Restarts(files, d, fuels))
    decreases |fuels|
  {
    if fuels != [] {
      RunKeepsExact(files, 0, d.version, d, fuels[0]);
      RestartsKeepExact(files, Attempt(files, d, fuels[0]).durable, fuels[1..]);
    }
  }

  // ----- completing

  lemma {:induction false} UninterruptedKeeps(files: seq<File>, i: nat, current: int, d: Durable)
    requires Orderly(files) && i <= |files| && Between(files, i, current, d)
    ensures Between(files, |files|, current, Uninterrupted(files, i, |files|, current, d))
    decreases |files| - i
  {
    if i < |files| {
      if files[i].version <= current {
        UninterruptedKeeps(files, i + 1, current, d);
      } else {
        NextIsAbove(files, i, current, d);
        ApplyKeepsBetween(files, i, current, d);
        UninterruptedKeeps(files, i + 1, current, Applied(files[i], d));
      }
    }
  }

  lemma {:induction false} UpToAll(files: seq<File>, n: nat, v: int)
    requires n <= |files| && forall j :: 0 <= j < n && files[j].others != [] ==> files[j].version <= v
    ensures UpTo(files, n, v) == All(files, n)
  {
    if n > 0 {
      UpToAll(files, n - 1, v);
      assert files[n - 1].others == [] ==> Entries(files[n - 1]) == [];
    }
  }

  /** A run that completes has applied everything, and no file with phase-B statements is above its version. */
  lemma FinishedIsComplete(files: seq<File>, d: Durable)
    requires Orderly(files) && VersionIsExact(files, d)
    ensures Finished(files, d).log == All(files, |files|)
    ensures forall j :: 0 <= j < |files| && files[j].others != [] ==> files[j].version <= Finished(files, d).version
  {
    UninterruptedKeeps(files, 0, d.version, d);
    UpToAll(files, |files|, Finished(files, d).version);
  }

  /** Fuel for files i..n, and not one statement more. */
  function TotalCost(files: seq<File>, i: nat, n: nat, current: int): nat
    requires i <= n <= |files|
    decreases n - i
  {
    if i == n then 0
    else (if files[i].version <= current then 0 else Cost(files[i])) + TotalCost(files, i + 1, n, current)
  }

  /** A crash can come right after any COMMIT. */
  lemma {:induction false} CrashAfter(files: seq<File>, i: nat, n: nat, current: int, d: Durable)
    requires i <= n <= |files|
    ensures RunFrom(files, i, current, d, TotalCost(files, i, n, current)).durable
        == Uninterrupted(files, i, n, current, d)
    decreases |files| - i
  {
    if i == |files| {
    } else if i == n {
      if files[i].version <= current {
        CrashAfter(files, i + 1, n + 1, current, d);
        StopsAtOnce(files, i, current, d);
      } else {
        StopsAtOnce(files, i, current, d);
      }
    } else if files[i].version <= current {
      CrashAfter(files, i + 1, n, current, d);
    } else {
      CrashAfter(files, i + 1, n, current, Applied(files[i], d));
    }
  }

  lemma {:induction false} StopsAtOnce(files: seq<File>, i: nat, current: int, d: Durable)
    requires i <= |files|
    ensures RunFrom(files, i, current, d, 0).durable == d
    decreases |files| - i
  {
    if i < |files| {
      if files[i].version <= current {
        StopsAtOnce(files, i + 1, current, d);
      } else {
        assert AsSet(files[i].virtuals[..0]) == {};
      }
    }
  }

  /** File k is the last one with work for this database. */
  ghost predicate LastPending(files: seq<File>, current: int, k: nat) {
    k < |files| && files[k].version > current && forall j :: k < j < |files| ==> files[j].version <= current
  }

  lemma {:induction false} SkippedRest(files: seq<File>, i: nat, current: int, d: Durable)
    requires i <= |files| && forall j :: i <= j < |files| ==> files[j].version <= current
    ensures Uninterrupted(files, i, |files|, current, d) == d
    decreases |files| - i
  {
    if i < |files| {
      SkippedRest(files, i + 1, current, d);
    }
  }

  lemma {:induction false} VersionOfLast(files: seq<File>, i: nat, current: int, d: Durable, k: nat)
    requires LastPending(files, current, k) && i <= k
    ensures Uninterrupted(files, i, |files|, current, d).version == files[k].version
    decreases |files| - i
  {
    var d' := if files[i].version <= current then d else Applied(files[i], d);
    if i < k {
      VersionOfLast(files, i + 1, current, d', k);
    } else {
      SkippedRest(files, i + 1, current, d');
    }
  }

  lemma {:induction false} FindLastPending(files: seq<File>, n: nat, current: int) returns (k: nat)
    requires n <= |files| && forall j :: n <= j < |files| ==> files[j].version <= current
    ensures LastPending(files, current, k)
        || (k == |files| && forall j :: 0 <= j < |files| ==> files[j].version <= current)
  {
    if n == 0 {
      k := |files|;
    } else if files[n - 1].version > current {
      k := n - 1;
    } else {
      k := FindLastPending(files, n - 1, current);
    }
  }

  /**
    A run that completes ends at the version of the last file it applied.
    So it reaches the highest version if and only if no file it applied has a higher one than the last.
   */
  lemma HighestReachedIff(files: seq<File>, d: Durable)
    ensures (forall k: nat :: LastPending(files, d.version, k) ==> Finished(files, d).version == files[k].version)
    ensures (forall j :: 0 <= j < |files| ==> files[j].version <= Finished(files, d).version)
       <==> (forall j, k: nat ::
         0 <= j < |files| && LastPending(files, d.version, k) ==> files[j].version <= files[k].version)
  {
    forall k: nat | LastPending(files, d.version, k) ensures Finished(files, d).version == files[k].version {
      VersionOfLast(files, 0, d.version, d, k);
    }
    var k := FindLastPending(files, |files|, d.version);
    if k == |files| {
      SkippedRest(files, 0, d.version, d);
    }
  }

  /** File names sort in the order of their versions. */
  ghost predicate Increasing(files: seq<File>) {
    forall i, j :: 0 <= i < j < |files| ==> files[i].version < files[j].version
  }

  /** Then a run that completes ends at the last file's version, unless the database was past it. */
  lemma IncreasingReachesLast(files: seq<File>, d: Durable)
    requires Increasing(files) && files != []
    ensures var last := files[|files| - 1].version;
      Finished(files, d).version == if last > d.version then last else d.version
    ensures forall j :: 0 <= j < |files| ==> files[j].version <= Finished(files, d).version
  {
    var n := |files| - 1;
    if files[n].version > d.version {
      assert LastPending(files, d.version, n);
      HighestReachedIff(files, d);
    } else {
      SkippedRest(files, 0, d.version, d);
    }
  }

  /** Two orderly files without phase-B statements of which the second has the lower version: a run goes back to it. */
  lemma VersionGoesBack(a: FileName, b: FileName, v: Text, w: Text)
    ensures var files := [File(a, 5, [v], []), File(b, 3, [w], [])];
      Orderly(files) && Finished(files, FRESH).version == 3
  {
    var files := [File(a, 5, [v], []), File(b, 3, [w], [])];
    assert LastPending(files, 0, 1);
    HighestReachedIff(files, FRESH);
  }

  // ----- the exact condition

  /** After any crashes and restarts, a run that completes leaves every phase-B statement applied, once and in order. */
  ghost predicate Robust(files: seq<File>) {
    forall fuels :: Finished(files, Restarts(files, FRESH, fuels)).log == All(files, |files|)
  }

  function Count(log: seq<Entry>, e: Entry): nat {
    multiset(log)[e]
  }

  lemma CountAppend(log: seq<Entry>, f: File, e: Entry)
    ensures Count(log + Entries(f), e) == Count(log, e) + Count(Entries(f), e)
    ensures e.file != f.name ==> Count(Entries(f), e) == 0
  {
    if e in Entries(f) {
      assert e.file == f.name;
    }
  }

  lemma {:induction false} CountUninterrupted(files: seq<File>, i: nat, n: nat, current: int, d: Durable, f: nat,
                                              e: Entry)
    requires i <= n <= |files| && f < |files| && DistinctNames(files) && e.file == files[f].name
    ensures Count(Uninterrupted(files, i, n, current, d).log, e)
         == Count(d.log, e) + if i <= f < n && files[f].version > current then Count(Entries(files[f]), e) else 0
    decreases n - i
  {
    if i < n {
      if files[i].version <= current {
        CountUninterrupted(files, i + 1, n, current, d, f, e);
      } else {
        CountUninterrupted(files, i + 1, n, current, Applied(files[i], d), f, e);
        CountAppend(d.log, files[i], e);
      }
    }
  }

  lemma {:induction false} CountAll(files: seq<File>, n: nat, f: nat, e: Entry)
    requires n <= |files| && f < |files| && DistinctNames(files) && e.file == files[f].name
    ensures Count(All(files, n), e) == if f < n then Count(Entries(files[f]), e) else 0
  {
    if n > 0 {
      CountAll(files, n - 1, f, e);
      CountAppend(All(files, n - 1), files[n - 1], e);
    }
  }

  /** The version right after a live file i was applied. */
  lemma {:induction false} VersionAfter(files: seq<File>, i: nat, n: nat, current: int, d: Durable)
    requires i < n <= |files| && files[n - 1].version > current
    ensures Uninterrupted(files, i, n, current, d).version == files[n - 1].version
    decreases n - i
  {
    if i + 1 < n {
      VersionAfter(files, i + 1, n, current, if files[i].version <= current then d else Applied(files[i], d));
    }
  }

  /**
    A run crashes right after file n - 1, another one completes: file f is applied in the first, in the second, in
    both or in neither.
   */
  lemma CrashThenFinish(files: seq<File>, n: nat, f: nat, e: Entry)
    requires Robust(files) && DistinctNames(files) && 0 < n <= |files| && f < |files|
    requires files[n - 1].version > 0 && e in Entries(files[f])
    ensures (f < n && files[f].version > 0) != (files[f].version > files[n - 1].version)
  {
    var fuels := [TotalCost(files, 0, n, 0)];
    var d := Uninterrupted(files, 0, n, 0, FRESH);
    CrashAfter(files, 0, n, 0, FRESH);
    assert Restarts(files, FRESH, fuels) == d by {
      assert fuels[1..] == [];
    }
    VersionAfter(files, 0, n, 0, FRESH);
    CountUninterrupted(files, 0, n, 0, FRESH, f, e);
    CountUninterrupted(files, 0, |files|, d.version, d, f, e);
    CountAll(files, |files|, f, e);
    assert e.file == files[f].name;
    assert Count(Entries(files[f]), e) > 0;
  }

  lemma RobustIsNumbered(files: seq<File>, f: nat)
    requires Robust(files) && DistinctNames(files) && f < |files|
    ensures Numbered(files[f])
  {
    if files[f].others != [] {
      var e := Entries(files[f])[0];
      assert Restarts(files, FRESH, []) == FRESH;
      CountUninterrupted(files, 0, |files|, 0, FRESH, f, e);
      CountAll(files, |files|, f, e);
      assert e in Entries(files[f]);
    }
  }

  lemma RobustIsInOrder(files: seq<File>, i: nat, j: nat)
    requires Robust(files) && DistinctNames(files) && i < j < |files|
    ensures InOrder(files[i], files[j])
  {
    if files[i].version > 0 && files[j].version > 0 {
      if files[j].others != [] {
        CrashThenFinish(files, i + 1, j, Entries(files[j])[0]);
      }
      if files[i].others != [] {
        CrashThenFinish(files, j + 1, i, Entries(files[i])[0]);
      }
    }
  }

  /**
    Crash-safety, exactly: every statement is applied once and in order after any crashes and
    restarts if and only if file-name order agrees with version order.
   */
  lemma RobustIff(files: seq<File>)
    requires DistinctNames(files)
    ensures Robust(files) <==> Orderly(files)
  {
    if Orderly(files) {
      forall fuels ensures Finished(files, Restarts(files, FRESH, fuels)).log == All(files, |files|) {
        NothingYet(files, |files|);
        RestartsKeepExact(files, FRESH, fuels);
        FinishedIsComplete(files, Restarts(files, FRESH, fuels));
      }
    }
    if Robust(files) {
      forall f | 0 <= f < |files| ensures Numbered(files[f]) {
        RobustIsNumbered(files, f);
      }
      forall i, j | 0 <= i < j < |files| ensures InOrder(files[i], files[j]) {
        RobustIsInOrder(files, i, j);
      }
    }
  }

  /** A fresh database has version 0 and nothing applied. */
  lemma {:induction false} NothingYet(files: seq<File>, n: nat)
    requires Orderly(files) && n <= |files|
    ensures UpTo(files, n, 0) == []
  {
    if n > 0 {
      NothingYet(files, n - 1);
      assert Numbered(files[n - 1]);
      assert files[n - 1].others == [] ==> Entries(files[n - 1]) == [];
    }
  }

  /** Phase A comes first: a phase-B statement is only ever applied once all virtual tables of its file exist. */
  ghost predicate TablesFirst(files: seq<File>, d: Durable) {
    forall f, e :: 0 <= f < |files| && e in d.log && e.file == files[f].name ==> AsSet(files[f].virtuals) <= d.virtuals
  }

  lemma {:induction false} RunKeepsTablesFirst(files: seq<File>, i: nat, current: int, d: Durable, fuel: nat)
    requires DistinctNames(files) && i <= |files| && TablesFirst(files, d)
    ensures TablesFirst(files, RunFrom(files, i, current, d, fuel).durable)
    decreases |files| - i
  {
    if i < |files| {
      if files[i].version <= current {
        RunKeepsTablesFirst(files, i + 1, current, d, fuel);
      } else if fuel >= Cost(files[i]) {
        RunKeepsTablesFirst(files, i + 1, current, Applied(files[i], d), fuel - Cost(files[i]));
      }
    }
  }
}
