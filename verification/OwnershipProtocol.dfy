/**
  The owner file of one project, as a protocol between processes: exclusive create,
  stale reclaim by atomic rename, heartbeat and release, one file operation per step.
 */
module OwnershipProtocol {
  import opened Wrappers
  import opened Ids

  type Pid = Id

  const TTL: real := 60.0
  const MAX_RETRIES: nat := 3

  /** What the owner file says; an empty or truncated file is unreadable. */
  datatype Content = Unreadable | Claim(pid: Pid, heartbeat: real)

  /** The owner file.  A descriptor stays tied to the inode it was tried on. */
  datatype File = Absent | Present(inode: nat, content: Content)

  /** Where a process stands.  `now` is the time it read when `acquire` began. */
  datatype Phase =
    | Idle
    | Creating(now: real, attempt: nat)   // about to open with O_CREAT | O_EXCL
    | Created(now: real, inode: nat)      // created the file, payload not written yet
    | Reading(now: real, attempt: nat)    // the file exists, about to read it
    | Checking(attempt: nat, now: real)   // read nothing, about to test whether the file exists
    | Reclaiming(now: real)               // saw a stale claim, about to rename its candidate over it
    | Replaced(now: real)                 // renamed, about to read back
    | Holding(beat: real)                 // owns the project, last heartbeat at `beat`
    | Beating(beat: real, next: real)     // heartbeat: found itself in the file
    | Truncated(beat: real, next: real, inode: nat)  // heartbeat: file truncated, payload not written yet
    | Unlinked                            // release: file removed, registry entry not yet
    | Dead

  datatype State = State(clock: real, file: File, freshInode: nat, procs: map<Pid, Phase>)

  datatype Action =
    | Tick(amount: real)
    | Begin(p: Pid)
    | OpenExclusive(p: Pid)
    | WritePayload(p: Pid)
    | ReadOwner(p: Pid)
    | CheckExists(p: Pid)
    | Replace(p: Pid)
    | ReadBack(p: Pid)
    | HeartbeatRead(p: Pid)
    | HeartbeatOpen(p: Pid)
    | HeartbeatWrite(p: Pid)
    | Unlink(p: Pid)
    | PopRegistry(p: Pid)
    | Crash(p: Pid)

  ghost predicate Initial(s: State) {
    s.file == Absent && forall p :: p in s.procs ==> s.procs[p] == Idle
  }

  function Set(s: State, p: Pid, phase: Phase): State {
    s.(procs := s.procs[p := phase])
  }

  /** Writing through a descriptor reaches the owner file only while the path still names its inode. */
  function WriteThrough(file: File, inode: nat, content: Content): File {
    if file.Present? && file.inode == inode then Present(inode, content) else file
  }

  /** One step of one process, or None if the process is not at that step. */
  function Do(s: State, a: Action): Option<State> {
    if a.Tick? then
      (if a.amount > 0.0 then Some(s.(clock := s.clock + a.amount)) else None)
    else if a.p !in s.procs then None
    else
      var p, phase := a.p, s.procs[a.p];
      match a
      case Begin(_) =>
        if phase.Idle? then Some(Set(s, p, Creating(s.clock, 0))) else None
      case OpenExclusive(_) =>
        if !phase.Creating? then None
        else if s.file.Absent? then
          Some(Set(s, p, Created(phase.now, s.freshInode)).(file := Present(s.freshInode, Unreadable),
                                                            freshInode := s.freshInode + 1))
        else Some(Set(s, p, Reading(phase.now, phase.attempt)))
      case WritePayload(_) =>
        if !phase.Created? then None
        else Some(Set(s, p, Holding(phase.now)).(file := WriteThrough(s.file, phase.inode, Claim(p, phase.now))))
      case ReadOwner(_) =>
        if !phase.Reading? then None
        else if s.file.Absent? || s.file.content.Unreadable? then Some(Set(s, p, Checking(phase.attempt, phase.now)))
        else if phase.now - s.file.content.heartbeat <= TTL then Some(Set(s, p, Idle))
        else Some(Set(s, p, Reclaiming(phase.now)))
      case CheckExists(_) =>
        if !phase.Checking? then None
        else if s.file.Absent? && phase.attempt + 1 < MAX_RETRIES
            then Some(Set(s, p, Creating(phase.now, phase.attempt + 1)))
        else Some(Set(s, p, Idle))
      case Replace(_) =>
        if !phase.Reclaiming? then None
        else Some(Set(s, p, Replaced(phase.now)).(file := Present(s.freshInode, Claim(p, phase.now)),
                                                  freshInode := s.freshInode + 1))
      case ReadBack(_) =>
        if !phase.Replaced? then None
        else if s.file.Present? && s.file.content.Claim? && s.file.content.pid == p
            then Some(Set(s, p, Holding(phase.now)))
        else Some(Set(s, p, Idle))
      case HeartbeatRead(_) =>
        if !phase.Holding? then None
        else if s.file.Present? && s.file.content.Claim? && s.file.content.pid == p
            then Some(Set(s, p, Beating(phase.beat, s.clock)))
        else Some(s)
      case HeartbeatOpen(_) =>
        if !phase.Beating? then None
        else if s.file.Absent? then
          Some(Set(s, p, Truncated(phase.beat, phase.next, s.freshInode)).(file := Present(s.freshInode, Unreadable),
              freshInode := s.freshInode + 1))
        else
          Some(Set(s, p, Truncated(phase.beat, phase.next, s.file.inode)).(file := Present(s.file.inode, Unreadable)))
      case HeartbeatWrite(_) =>
        if !phase.Truncated? then None
        else Some(Set(s, p, Holding(phase.next)).(file := WriteThrough(s.file, phase.inode, Claim(p, phase.next))))
      case Unlink(_) =>
        if phase.Holding? then Some(Set(s, p, Unlinked).(file := Absent)) else None
      case PopRegistry(_) =>
        if phase.Unlinked? then Some(Set(s, p, Idle)) else None
      case Crash(_) =>
        Some(Set(s, p, Dead))
  }

  // ----- what is claimed of a state

  /** A process that owns the project: `acquire` has given it a token and it has not released it. */
  predicate Owner(phase: Phase) {
    phase.Holding? || phase.Beating? || phase.Truncated?
  }

  /** A process whose claim is in the file or on its way there. */
  predicate Claimant(phase: Phase) {
    Owner(phase) || phase.Created? || phase.Replaced?
  }

  function ClaimTime(phase: Phase): real
    requires Claimant(phase)
  {
    match phase
    case Created(now, _) => now
    case Replaced(now) => now
    case Holding(beat) => beat
    case Beating(beat, _) => beat
    case Truncated(beat, _, _) => beat
  }

  predicate Reclaimer(phase: Phase) {
    phase.Reclaiming? || phase.Replaced?
  }

  /** No live claimant has gone stale. */
  ghost predicate Timely(s: State) {
    forall p :: p in s.procs && Claimant(s.procs[p]) ==> s.clock - ClaimTime(s.procs[p]) <= TTL
  }

  /** No two processes are between seeing a stale claim and reading back. */
  ghost predicate NoOverlap(s: State) {
    forall p, q :: p in s.procs && q in s.procs && Reclaimer(s.procs[p]) && Reclaimer(s.procs[q]) ==> p == q
  }

  ghost predicate MutualExclusion(s: State) {
    forall p, q :: p in s.procs && q in s.procs && Owner(s.procs[p]) && Owner(s.procs[q]) ==> p == q
  }

  /** Whoever reads the owner file finds the owner's name in it. */
  ghost predicate FileNamesOwner(s: State) {
    forall p :: p in s.procs && Owner(s.procs[p]) && s.file.Present? && s.file.content.Claim?
        ==> s.file.content.pid == p
  }

  // ----- the invariant

  /** The file as the claimant p left it. */
  ghost predicate FileOf(s: State, p: Pid)
    requires p in s.procs
  {
    match s.procs[p]
    case Created(_, inode) => s.file == Present(inode, Unreadable)
    case Replaced(now) => s.file.Present? && s.file.content == Claim(p, now)
    case Holding(beat) => s.file.Present? && s.file.content == Claim(p, beat)
    case Beating(beat, _) => s.file.Present? && s.file.content == Claim(p, beat)
    case Truncated(_, _, inode) => s.file == Present(inode, Unreadable)
    case _ => true
  }

  ghost predicate StaleClaim(s: State) {
    s.file.Present? && s.file.content.Claim? && s.clock - s.file.content.heartbeat > TTL
  }

  /** The times a process carries are not in the future. */
  ghost predicate Past(s: State, phase: Phase) {
    match phase
    case Creating(now, _) => now <= s.clock
    case Reading(now, _) => now <= s.clock
    case Checking(_, now) => now <= s.clock
    case Reclaiming(now) => now <= s.clock
    case _ => true
  }

  ghost predicate Inv(s: State) {
    && (forall p, q :: p in s.procs && q in s.procs && Claimant(s.procs[p]) && Claimant(s.procs[q]) ==> p == q)
    && (forall p :: p in s.procs && Claimant(s.procs[p]) ==> FileOf(s, p))
    && (forall p :: p in s.procs ==> Past(s, s.procs[p]))
    // while a process reclaims, nobody claims, and the stale file stays as it is
    && (forall p :: p in s.procs && s.procs[p].Reclaiming? ==>
          StaleClaim(s) && forall q :: q in s.procs ==> !Claimant(s.procs[q]))
  }

  lemma InvIsSafe(s: State)
    requires Inv(s)
    ensures MutualExclusion(s) && FileNamesOwner(s)
  {
    forall p, q | p in s.procs && q in s.procs && Owner(s.procs[p]) && Owner(s.procs[q]) ensures p == q {
      assert Claimant(s.procs[p]) && Claimant(s.procs[q]);
    }
    forall p | p in s.procs && Owner(s.procs[p]) && s.file.Present? && s.file.content.Claim?
      ensures s.file.content.pid == p
    {
      assert Claimant(s.procs[p]) && FileOf(s, p);
    }
  }

  // ----- one step

  predicate StepOfAcquire(a: Action) {
    a.Begin? || a.OpenExclusive? || a.WritePayload? || a.CheckExists?
  }

  predicate StepOfReclaim(a: Action) {
    a.ReadOwner? || a.Replace? || a.ReadBack?
  }

  predicate StepOfHeartbeat(a: Action) {
    a.HeartbeatRead? || a.HeartbeatOpen? || a.HeartbeatWrite?
  }

  lemma CreateKeepsInv(s: State, p: Pid, s': State)
    requires Inv(s) && Do(s, OpenExclusive(p)) == Some(s')
    ensures Inv(s')
  {
  }

  lemma AcquireKeepsInv(s: State, a: Action, s': State)
    requires Inv(s) && StepOfAcquire(a) && Do(s, a) == Some(s')
    ensures Inv(s')
  {
    if a.OpenExclusive? {
      CreateKeepsInv(s, a.p, s');
    }
  }

  /** A claim that reads as stale belongs to no live claimant. */
  lemma StaleHasNoClaimant(s: State, p: Pid)
    requires Inv(s) && Timely(s) && p in s.procs && s.procs[p].Reading?
    requires s.file.Present? && s.file.content.Claim? && s.procs[p].now - s.file.content.heartbeat > TTL
    ensures StaleClaim(s) && forall q :: q in s.procs ==> !Claimant(s.procs[q])
  {
    assert Past(s, s.procs[p]);
    assert forall q :: q in s.procs && Claimant(s.procs[q]) ==> FileOf(s, q);
  }

  lemma ReplaceKeepsInv(s: State, p: Pid, s': State)
    requires Inv(s) && NoOverlap(s) && Do(s, Replace(p)) == Some(s')
    ensures Inv(s')
  {
  }

  lemma ReclaimKeepsInv(s: State, a: Action, s': State)
    requires Inv(s) && Timely(s) && NoOverlap(s) && StepOfReclaim(a) && Do(s, a) == Some(s')
    ensures Inv(s')
  {
    if a.Replace? {
      ReplaceKeepsInv(s, a.p, s');
    } else if a.ReadOwner? {
      ReadOwnerKeepsInv(s, a.p, s');
    } else {
      ReadBackKeepsInv(s, a.p, s');
    }
  }

  lemma ReadOwnerKeepsInv(s: State, p: Pid, s': State)
    requires Inv(s) && Timely(s) && NoOverlap(s) && Do(s, ReadOwner(p)) == Some(s')
    ensures Inv(s')
  {
    if s'.procs[p].Reclaiming? {
      StaleHasNoClaimant(s, p);
    }
  }

  lemma ReadBackKeepsInv(s: State, p: Pid, s': State)
    requires Inv(s) && Timely(s) && NoOverlap(s) && Do(s, ReadBack(p)) == Some(s')
    ensures Inv(s')
  {
  }

  lemma HeartbeatKeepsInv(s: State, a: Action, s': State)
    requires Inv(s) && StepOfHeartbeat(a) && Do(s, a) == Some(s')
    ensures Inv(s')
  {
  }

  lemma StepKeepsInv(s: State, a: Action, s': State)
    requires Inv(s) && Timely(s) && NoOverlap(s) && Do(s, a) == Some(s')
    ensures Inv(s')
  {
    if StepOfAcquire(a) {
      AcquireKeepsInv(s, a, s');
    } else if StepOfReclaim(a) {
      ReclaimKeepsInv(s, a, s');
    } else if StepOfHeartbeat(a) {
      HeartbeatKeepsInv(s, a, s');
    } else {
      TickReleaseCrashKeepInv(s, a, s');
    }
  }

  lemma TickReleaseCrashKeepInv(s: State, a: Action, s': State)
    requires Inv(s) && (a.Tick? || a.Unlink? || a.PopRegistry? || a.Crash?) && Do(s, a) == Some(s')
    ensures Inv(s')
  {
  }

  // ----- whole runs

  /** A run: the states passed through, and the step taken from each to the next. */
  ghost predicate IsRun(ss: seq<State>, steps: seq<Action>) {
    && |ss| == |steps| + 1
    && forall i :: 0 <= i < |steps| ==> Do(ss[i], steps[i]) == Some(ss[i + 1])
  }

  /**
    In every interleaving in which no live claimant goes stale and reclaims do not overlap,
    at most one process owns the project, and a readable owner file names that process.
   */
  lemma {:induction false} RunsAreSafe(ss: seq<State>, steps: seq<Action>)
    requires IsRun(ss, steps) && Initial(ss[0])
    requires forall i :: 0 <= i < |ss| ==> Timely(ss[i]) && NoOverlap(ss[i])
    ensures forall i :: 0 <= i < |ss| ==> Inv(ss[i]) && MutualExclusion(ss[i]) && FileNamesOwner(ss[i])
  {
    if steps != [] {
      var n := |steps| - 1;
      RunsAreSafe(ss[..n + 1], steps[..n]);
      assert Inv(ss[..n + 1][n]);
      StepKeepsInv(ss[n], steps[n], ss[n + 1]);
    }
    InvIsSafe(ss[|steps|]);
  }

  // ----- what the two conditions are for

  function Step(s: State, a: Action): State {
    if Do(s, a).Some? then Do(s, a).value else s
  }

  /**
    A reclaim that nobody interrupts gives the project to p, and breaks mutual exclusion
    if and only if another process owns the project when the rename happens.
   */
  lemma ReclaimSafeIff(s: State, p: Pid)
    requires MutualExclusion(s) && p in s.procs && s.procs[p].Reclaiming?
    ensures var s' := Step(Step(s, Replace(p)), ReadBack(p));
      && Owner(s'.procs[p])
      && (MutualExclusion(s') <==> forall q :: q in s.procs ==> !Owner(s.procs[q]))
  {
    var s' := Step(Step(s, Replace(p)), ReadBack(p));
    assert forall q :: q in s.procs && q != p ==> s'.procs[q] == s.procs[q];
  }

  /**
    Whoever the file named, a release lets the next process in at once; exclusion then holds
    if and only if nobody but the releasing process owned the project.
   */
  lemma ReleaseSafeIff(s: State, p: Pid, r: Pid)
    requires p in s.procs && r in s.procs && p != r && s.procs[p].Holding? && s.procs[r].Idle?
    ensures var s' := Step(Step(Step(Step(s, Unlink(p)), Begin(r)), OpenExclusive(r)), WritePayload(r));
      && Owner(s'.procs[r]) && s'.file.Present? && s'.file.content == Claim(r, s.clock)
      && (MutualExclusion(s') <==> forall q :: q in s.procs && q != p ==> !Owner(s.procs[q]))
  {
    var s1 := Step(s, Unlink(p));
    var s' := Step(Step(Step(s1, Begin(r)), OpenExclusive(r)), WritePayload(r));
    assert forall q :: q in s.procs && q != p && q != r ==> s'.procs[q] == s.procs[q];
    assert s'.procs[p] == Unlinked && s'.procs.Keys == s.procs.Keys;
  }

  /** The start of both examples: x acquires the project, and a minute later p and q have found the claim stale. */
  function Acquired(x: Pid, p: Pid, q: Pid): State {
    State(0.0, Present(0, Claim(x, 0.0)), 1, map[p := Idle, q := Idle, x := Holding(0.0)])
  }

  lemma AcquiredIsReached(x: Pid, p: Pid, q: Pid) returns (ss: seq<State>, steps: seq<Action>)
    requires x != p && x != q && p != q
    ensures IsRun(ss, steps) && Initial(ss[0]) && ss[|ss| - 1] == Acquired(x, p, q)
    ensures forall i :: 0 <= i < |ss| ==> Timely(ss[i]) && NoOverlap(ss[i])
  {
    steps := [Begin(x), OpenExclusive(x), WritePayload(x)];
    var s0 := State(0.0, Absent, 0, map[p := Idle, q := Idle, x := Idle]);
    var s1 := Step(s0, steps[0]);
    var s2 := Step(s1, steps[1]);
    var s3 := Step(s2, steps[2]);
    assert s3 == Acquired(x, p, q);
    ss := [s0, s1, s2, s3];
  }

  /** The owner has crashed, a minute has passed, and p and q have both read the stale claim. */
  function BothSawStale(x: Pid, p: Pid, q: Pid): State {
    State(61.0, Present(0, Claim(x, 0.0)), 1, map[p := Reclaiming(61.0), q := Reclaiming(61.0), x := Dead])
  }

  lemma BothSeeStale(x: Pid, p: Pid, q: Pid) returns (ss: seq<State>, steps: seq<Action>)
    requires x != p && x != q && p != q
    ensures IsRun(ss, steps) && ss[0] == Acquired(x, p, q) && ss[|ss| - 1] == BothSawStale(x, p, q)
    ensures forall i :: 0 <= i < |ss| ==> Timely(ss[i])
  {
    steps := [Crash(x), Tick(61.0), Begin(p), OpenExclusive(p), ReadOwner(p), Begin(q), OpenExclusive(q), ReadOwner(q)];
    var s0 := Acquired(x, p, q);
    var s1 := Step(s0, steps[0]);
    var s2 := Step(s1, steps[1]);
    var s3 := Step(s2, steps[2]);
    var s4 := Step(s3, steps[3]);
    var s5 := Step(s4, steps[4]);
    var s6 := Step(s5, steps[5]);
    var s7 := Step(s6, steps[6]);
    var s8 := Step(s7, steps[7]);
    assert s8 == BothSawStale(x, p, q);
    ss := [s0, s1, s2, s3, s4, s5, s6, s7, s8];
  }

  /** Then both replace the file, and both read their own claim back. */
  lemma BothReclaim(x: Pid, p: Pid, q: Pid) returns (ss: seq<State>, steps: seq<Action>)
    requires x != p && x != q && p != q
    ensures IsRun(ss, steps) && ss[0] == BothSawStale(x, p, q) && !MutualExclusion(ss[|ss| - 1])
    ensures forall i :: 0 <= i < |ss| ==> Timely(ss[i])
  {
    steps := [Replace(p), ReadBack(p), Replace(q), ReadBack(q)];
    var s0 := BothSawStale(x, p, q);
    var s1 := Step(s0, steps[0]);
    var s2 := Step(s1, steps[1]);
    var s3 := Step(s2, steps[2]);
    var s4 := Step(s3, steps[3]);
    ss := [s0, s1, s2, s3, s4];
    assert s4.procs[p].Holding? && s4.procs[q].Holding? && p in s4.procs && q in s4.procs;
  }

  lemma JoinRuns(ss: seq<State>, steps: seq<Action>, ss': seq<State>, steps': seq<Action>)
    requires IsRun(ss, steps) && IsRun(ss', steps') && ss[|ss| - 1] == ss'[0]
    ensures IsRun(ss + ss'[1..], steps + steps')
  {
  }

  /** Overlapping reclaims: no live claimant is ever stale, and yet both reclaimers win. */
  lemma OverlapBreaksExclusion(x: Pid, p: Pid, q: Pid)
    requires x != p && x != q && p != q
    ensures exists ss: seq<State>, steps: seq<Action> :: IsRun(ss, steps) && ss[0] == Acquired(x, p, q)
                             && (forall i :: 0 <= i < |ss| ==> Timely(ss[i]))
                             && !MutualExclusion(ss[|ss| - 1])
  {
    var ss, steps := BothSeeStale(x, p, q);
    var ss', steps' := BothReclaim(x, p, q);
    JoinRuns(ss, steps, ss', steps');
    assert IsRun(ss + ss'[1..], steps + steps');
    assert (ss + ss'[1..])[|ss + ss'[1..]| - 1] == ss'[|ss'| - 1];
  }

  /** The owner has missed its heartbeats for a minute, and p has taken the project over. */
  function Overslept(x: Pid, p: Pid, q: Pid): State {
    State(61.0, Present(1, Claim(p, 61.0)), 2, map[p := Holding(61.0), q := Idle, x := Holding(0.0)])
  }

  lemma Oversleeps(x: Pid, p: Pid, q: Pid) returns (ss: seq<State>, steps: seq<Action>)
    requires x != p && x != q && p != q
    ensures IsRun(ss, steps) && ss[0] == Acquired(x, p, q) && ss[|ss| - 1] == Overslept(x, p, q)
    ensures forall i :: 0 <= i < |ss| ==> NoOverlap(ss[i])
  {
    steps := [Tick(61.0), Begin(p), OpenExclusive(p), ReadOwner(p), Replace(p), ReadBack(p)];
    var s0 := Acquired(x, p, q);
    var s1 := Step(s0, steps[0]);
    var s2 := Step(s1, steps[1]);
    var s3 := Step(s2, steps[2]);
    var s4 := Step(s3, steps[3]);
    var s5 := Step(s4, steps[4]);
    var s6 := Step(s5, steps[5]);
    assert s6 == Overslept(x, p, q);
    ss := [s0, s1, s2, s3, s4, s5, s6];
  }

  /**
    A live owner that misses its heartbeats: no reclaims overlap, and yet there are two owners; its release then takes
    the file of the other.
   */
  lemma SleeperBreaksExclusion(x: Pid, p: Pid, q: Pid)
    requires x != p && x != q && p != q
    ensures exists ss: seq<State>, steps: seq<Action> :: IsRun(ss, steps) && ss[0] == Acquired(x, p, q)
                             && (forall i :: 0 <= i < |ss| ==> NoOverlap(ss[i]))
                             && |ss| >= 2 && !MutualExclusion(ss[|ss| - 2])
                             && p in ss[|ss| - 1].procs && Owner(ss[|ss| - 1].procs[p]) && ss[|ss| - 1].file.Absent?
  {
    var ss, steps := Oversleeps(x, p, q);
    var s, last := Overslept(x, p, q), Step(Overslept(x, p, q), Unlink(x));
    assert s.procs[x].Holding? && s.procs[p].Holding?;
    assert IsRun(ss + [last], steps + [Unlink(x)]);
    assert (ss + [last])[|ss| - 1] == s && (ss + [last])[|ss|] == last;
  }

  // ----- a crash between creating the file and writing it

  /** The file exists, says nothing, and nobody is about to write it. */
  ghost predicate Wedged(s: State) {
    && s.file.Present? && s.file.content.Unreadable?
    && forall p :: p in s.procs ==> !Claimant(s.procs[p]) && !s.procs[p].Reclaiming?
  }

  lemma CrashWedges(s: State, p: Pid)
    requires Inv(s) && p in s.procs && (s.procs[p].Created? || s.procs[p].Truncated?)
    ensures Wedged(Step(s, Crash(p)))
  {
    assert FileOf(s, p);
    assert forall q :: q in s.procs && Claimant(s.procs[q]) ==> q == p;
  }

  /** From then on no interleaving whatever gives the project to anybody; only removing the file by hand helps. */
  lemma {:induction false} WedgedForever(ss: seq<State>, steps: seq<Action>)
    requires IsRun(ss, steps) && Wedged(ss[0])
    ensures forall i, p :: 0 <= i < |ss| && p in ss[i].procs ==> !Owner(ss[i].procs[p])
    ensures Wedged(ss[|steps|])
  {
    if steps != [] {
      var n := |steps| - 1;
      WedgedForever(ss[..n + 1], steps[..n]);
      assert Wedged(ss[..n + 1][n]);
      WedgedStep(ss[n], steps[n], ss[n + 1]);
    }
  }

  lemma WedgedStep(s: State, a: Action, s': State)
    requires Wedged(s) && Do(s, a) == Some(s')
    ensures Wedged(s')
  {
  }

  /** An undisturbed `acquire` succeeds exactly if there is no file or the claim in it has gone stale. */
  lemma UndisturbedAcquire(s: State, p: Pid)
    requires p in s.procs && s.procs[p].Idle?
    ensures var tried := Step(Step(s, Begin(p)), OpenExclusive(p));
      var s' := if s.file.Absent? then Step(tried, WritePayload(p))
                else Step(Step(Step(tried, ReadOwner(p)), Replace(p)), ReadBack(p));
      && (Owner(s'.procs[p]) <==> s.file.Absent? || StaleClaim(s))
      && (Owner(s'.procs[p]) ==> s'.file.Present? && s'.file.content == Claim(p, s.clock))
      && (!Owner(s'.procs[p]) ==> s'.file == s.file)
  {
  }
}
