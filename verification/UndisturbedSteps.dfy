/** What the steps of the owner-file protocol come to when nobody interferes, and what no step does. */
module UndisturbedSteps {
  import opened OwnershipProtocol
  import opened Wrappers

  /** The file holds a claim of this process at this time. */
  ghost predicate Claimed(s: State, p: Pid, heartbeat: real) {
    s.file.Present? && s.file.content == Claim(p, heartbeat)
  }

  ghost predicate OthersSame(s: State, s': State, p: Pid) {
    && s'.procs.Keys == s.procs.Keys && s'.clock == s.clock
    && forall q :: q in s.procs && q != p ==> s'.procs[q] == s.procs[q]
  }

  /** A whole `acquire`: the project is taken now, unless the file is unreadable or a claim is at most a minute old. */
  lemma WholeAcquire(s: State, p: Pid)
    requires p in s.procs && s.procs[p].Idle?
    ensures var tried := Step(Step(s, Begin(p)), OpenExclusive(p));
      var s' := if s.file.Absent? then Step(tried, WritePayload(p))
                else Step(Step(Step(Step(tried, ReadOwner(p)), CheckExists(p)), Replace(p)), ReadBack(p));
      && OthersSame(s, s', p)
      && (if s.file.Present? && (s.file.content.Unreadable? || s.clock - s.file.content.heartbeat <= 60.0)
          then s'.procs[p] == Idle && s'.file == s.file
          else s'.procs[p] == Holding(s.clock) && Claimed(s', p, s.clock))
  {
  }

  /** A whole heartbeat: the claim is refreshed if the file still names the process, and else nothing happens. */
  lemma WholeHeartbeat(s: State, p: Pid)
    requires p in s.procs && s.procs[p].Holding?
    ensures var s' := Step(Step(Step(s, HeartbeatRead(p)), HeartbeatOpen(p)), HeartbeatWrite(p));
      if exists beat :: Claimed(s, p, beat)
      then OthersSame(s, s', p) && s'.procs[p] == Holding(s.clock) && Claimed(s', p, s.clock)
      else s' == s
  {
    if s.file.Present? && s.file.content.Claim? && s.file.content.pid == p {
      assert Claimed(s, p, s.file.content.heartbeat);
    }
  }

  /** A whole release: the file is gone, whoever it named, and the process is idle again. */
  lemma WholeRelease(s: State, p: Pid)
    requires p in s.procs && s.procs[p].Holding?
    ensures var s' := Step(Step(s, Unlink(p)), PopRegistry(p));
      OthersSame(s, s', p) && s'.procs[p] == Idle && s'.file == Absent
  {
  }

  /** A file that has vanished before it is read: the process tries again, three times in all. */
  lemma VanishedFile(s: State, p: Pid, now: real, attempt: nat)
    requires p in s.procs && s.procs[p] == Reading(now, attempt) && s.file.Absent?
    ensures var s' := Step(Step(s, ReadOwner(p)), CheckExists(p));
      OthersSame(s, s', p) && s'.file == s.file
      && s'.procs[p] == if attempt < 2 then Creating(now, attempt + 1) else Idle
  {
  }

  /** An `acquire` begins with the first attempt, at the present time; a file that is there is read in that attempt. */
  lemma FirstAttempt(s: State, p: Pid)
    requires p in s.procs && s.procs[p].Idle?
    ensures Step(s, Begin(p)).procs[p] == Creating(s.clock, 0)
    ensures s.file.Present? ==> Step(Step(s, Begin(p)), OpenExclusive(p)).procs[p] == Reading(s.clock, 0)
  {
  }

  /** The clock can always go on; a process can take a step exactly when it stands in front of it, and always crash. */
  lemma MayStepIff(s: State, a: Action)
    ensures Do(s, a).Some?
       <==> match a
            case Tick(amount) => amount > 0.0
            case Begin(p) => p in s.procs && s.procs[p].Idle?
            case OpenExclusive(p) => p in s.procs && s.procs[p].Creating?
            case WritePayload(p) => p in s.procs && s.procs[p].Created?
            case ReadOwner(p) => p in s.procs && s.procs[p].Reading?
            case CheckExists(p) => p in s.procs && s.procs[p].Checking?
            case Replace(p) => p in s.procs && s.procs[p].Reclaiming?
            case ReadBack(p) => p in s.procs && s.procs[p].Replaced?
            case HeartbeatRead(p) => p in s.procs && s.procs[p].Holding?
            case HeartbeatOpen(p) => p in s.procs && s.procs[p].Beating?
            case HeartbeatWrite(p) => p in s.procs && s.procs[p].Truncated?
            case Unlink(p) => p in s.procs && s.procs[p].Holding?
            case PopRegistry(p) => p in s.procs && s.procs[p].Unlinked?
            case Crash(p) => p in s.procs
  {
  }

  ghost predicate AtMostThird(s: State) {
    forall p :: p in s.procs ==>
      match s.procs[p]
      case Creating(_, attempt) => attempt <= 2
      case Reading(_, attempt) => attempt <= 2
      case Checking(attempt, _) => attempt <= 2
      case _ => true
  }

  /** In no run does an `acquire` come to a fourth attempt. */
  lemma {:induction false} ThreeAttempts(ss: seq<State>, steps: seq<Action>, k: nat)
    requires IsRun(ss, steps) && Initial(ss[0]) && k < |ss|
    ensures AtMostThird(ss[k])
  {
    if k > 0 {
      ThreeAttempts(ss, steps, k - 1);
      assert Do(ss[k - 1], steps[k - 1]) == Some(ss[k]);
    }
  }

  /** A step changes the phase of the process that takes it and nobody else's; only waiting changes the clock. */
  lemma StepsAreOwn(s: State, a: Action, s': State)
    requires Do(s, a) == Some(s')
    ensures a.Tick? ==> a.amount > 0.0 && s' == State(s.clock + a.amount, s.file, s.freshInode, s.procs)
    ensures !a.Tick? ==> a.p in s.procs && OthersSame(s, s', a.p)
    ensures !a.Tick? && s.procs[a.p].Dead? ==> a.Crash? && s' == s
  {
    if !a.Tick? && s.procs[a.p].Dead? {
      assert s'.procs == s.procs;
    }
  }
}
