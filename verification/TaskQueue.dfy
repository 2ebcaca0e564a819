/**
  The extraction queue shared by several workers: the two-step optimistic claim,
  recovery of stale rows, completion and pruning, one SQL statement per step.
 */
module TaskQueue {
  import opened Wrappers
  import opened Ids

  const STALE_RUNNING_SECONDS: int := 300
  const QUEUE_RETENTION_SECONDS: int := 30 * 86400
  const PRUNE_INTERVAL_SECONDS: int := 86400

  datatype Status = Pending | Running | Done | Failed

  datatype Task = Task(memory: Option<Id>, status: Status, attempts: nat, createdAt: int,
                       startedAt: Option<int>, processedAt: Option<int>, lastError: Option<string>)

  type Table = map<Id, Task>

  predicate Terminal(t: Task) {
    t.status == Done || t.status == Failed
  }

  // ----- the statements

  /** A row the SELECT of a claim may return: the oldest pending one. */
  predicate Oldest(rows: Table, id: Id) {
    && id in rows && rows[id].status == Pending
    && forall k :: k in rows && rows[k].status == Pending ==> rows[id].createdAt <= rows[k].createdAt
  }

  /** The UPDATE of a claim hits its row only while the row is still pending. */
  predicate ClaimHits(rows: Table, id: Id) {
    id in rows && rows[id].status == Pending
  }

  function ClaimRow(rows: Table, id: Id, now: int): Table {
    if ClaimHits(rows, id)
    then rows[id := rows[id].(status := Running, startedAt := Some(now), attempts := rows[id].attempts + 1)]
    else rows
  }

  predicate IsStale(t: Task, now: int) {
    t.status == Running && t.startedAt.Some? && t.startedAt.value < now - STALE_RUNNING_SECONDS
  }

  function RecoverRows(rows: Table, now: int): Table {
    map k | k in rows :: if IsStale(rows[k], now) then rows[k].(status := Pending, startedAt := None) else rows[k]
  }

  function MarkDone(rows: Table, id: Id, now: int): Table {
    if id in rows then rows[id := rows[id].(status := Done, processedAt := Some(now))] else rows
  }

  function MarkFailed(rows: Table, id: Id, now: int, error: string): Table {
    if id in rows then rows[id := rows[id].(status := Failed, processedAt := Some(now), lastError := Some(error))]
        else rows
  }

  predicate IsAged(t: Task, cutoff: int) {
    Terminal(t) && t.processedAt.Some? && t.processedAt.value < cutoff
  }

  function PruneRows(rows: Table, cutoff: int): Table {
    map k | k in rows && !IsAged(rows[k], cutoff) :: rows[k]
  }

  predicate PruneDue(lastPrune: Option<int>, now: int) {
    lastPrune.None? || now - lastPrune.value >= PRUNE_INTERVAL_SECONDS
  }

  /** Claiming, finishing and failing a row: its status, its times, its attempts and its error. */
  lemma StatementsLeave(rows: Table, id: Id, now: int, error: string)
    requires id in rows
    ensures var row := MarkDone(rows, id, now)[id];
      row.status == Done && row.processedAt == Some(now) && row.lastError == rows[id].lastError
    ensures var row := MarkFailed(rows, id, now, error)[id];
      row.status == Failed && row.processedAt == Some(now) && row.lastError == Some(error)
    ensures rows[id].status == Pending ==>
      var row := ClaimRow(rows, id, now)[id];
      row.status == Running && row.startedAt == Some(now) && row.attempts == rows[id].attempts + 1
    ensures rows[id].status != Pending ==> ClaimRow(rows, id, now) == rows
    ensures var row := RecoverRows(rows, now)[id];
      if rows[id].status == Running && rows[id].startedAt.Some? && now - rows[id].startedAt.value > 300
      then row == rows[id].(status := Pending, startedAt := None) else row == rows[id]
    ensures id in PruneRows(rows, now - QUEUE_RETENTION_SECONDS) <==>
      !((rows[id].status == Done || rows[id].status == Failed) && rows[id].processedAt.Some?
        && now - rows[id].processedAt.value > 2592000)
    ensures MarkDone(rows, id, now).Keys == MarkFailed(rows, id, now, error).Keys == rows.Keys
    ensures forall k :: k in rows && k != id ==>
      MarkDone(rows, id, now)[k] == MarkFailed(rows, id, now, error)[k] == rows[k]
  {
  }

  // ----- the queue as the workers use it

  class Queue {
    var rows: Table
    var lastPrune: Option<int>

    constructor ()
      ensures rows == map[] && lastPrune == None
    {
      rows, lastPrune := map[], None;
    }

    method Enqueue(id: Id, memory: Option<Id>, now: int)
      requires id !in rows
      modifies this`rows
      ensures rows == old(rows)[id := Task(memory, Pending, 0, now, None, None, None)]
    {
      rows := rows[id := Task(memory, Pending, 0, now, None, None, None)];
    }

    /** First step of a claim: the oldest pending row, if there is one. */
    method SelectOldest() returns (id: Option<Id>)
      ensures id.Some? ==> Oldest(rows, id.value)
      ensures id.None? ==> forall k :: k in rows ==> rows[k].status != Pending
    {
      var todo := set k | k in rows && rows[k].status == Pending;
      ghost var pending := todo;
      id := None;
      while todo != {}
        invariant todo <= pending
        invariant id.None? ==> todo == pending
        invariant id.Some? ==>
          id.value in pending && forall k :: k in pending - todo ==> rows[id.value].createdAt <= rows[k].createdAt
        decreases todo
      {
        var k :| k in todo;
        if id.None? || rows[k].createdAt < rows[id.value].createdAt {
          id := Some(k);
        }
        todo := todo - {k};
      }
      assert forall k :: k in rows && rows[k].status == Pending ==> k in pending;
    }

    /** Second step of a claim: succeeds only if nobody else was faster. */
    method Claim(id: Id, now: int) returns (won: bool)
      modifies this`rows
      ensures won <==> ClaimHits(old(rows), id)
      ensures rows == ClaimRow(old(rows), id, now)
    {
      won := ClaimHits(rows, id);
      if won {
        rows := rows[id := rows[id].(status := Running, startedAt := Some(now), attempts := rows[id].attempts + 1)];
      }
    }

    /** Both steps with nobody in between: the oldest pending row is taken, and none only if there is none. */
    method ClaimOne(now: int) returns (id: Option<Id>)
      modifies this`rows
      ensures id.None? <==> forall k :: k in old(rows) ==> old(rows)[k].status != Pending
      ensures id.None? ==> rows == old(rows)
      ensures id.Some? ==>
        && id.value in old(rows) && old(rows)[id.value].status == Pending
        && forall k :: k in old(rows) && old(rows)[k].status == Pending ==>
             old(rows)[id.value].createdAt <= old(rows)[k].createdAt
      ensures id.Some? ==> rows == ClaimRow(old(rows), id.value, now)
      ensures id.Some? ==> rows[id.value].status == Running && rows[id.value].startedAt == Some(now)
    {
      id := SelectOldest();
      if id.Some? {
        var won := Claim(id.value, now);
        if !won {
          id := None;
        }
      }
    }

    method Recover(now: int)
      modifies this`rows
      ensures rows == RecoverRows(old(rows), now)
    {
      rows := RecoverRows(rows, now);
    }

    method MaybePrune(now: int) returns (pruned: bool)
      modifies this
      ensures pruned <==> old(lastPrune) == None || now - old(lastPrune).value >= 86400
      ensures pruned <==> PruneDue(old(lastPrune), now)
      ensures pruned ==> rows == PruneRows(old(rows), now - QUEUE_RETENTION_SECONDS) && lastPrune == Some(now)
      ensures !pruned ==> rows == old(rows) && lastPrune == old(lastPrune)
    {
      if lastPrune.Some? && now - lastPrune.value < PRUNE_INTERVAL_SECONDS {
        return false;
      }
      rows := PruneRows(rows, now - QUEUE_RETENTION_SECONDS);
      lastPrune := Some(now);
      pruned := true;
    }

    /** The end of a task: done, or failed with a reason. */
    method Finish(id: Id, error: Option<string>, now: int)
      modifies this`rows
      ensures rows == if error.None? then MarkDone(old(rows), id, now) else MarkFailed(old(rows), id, now, error.value)
    {
      if id in rows {
        if error.None? {
          rows := rows[id := rows[id].(status := Done, processedAt := Some(now))];
        } else {
          rows := rows[id := rows[id].(status := Failed, processedAt := Some(now), lastError := error)];
        }
      }
    }
  }

  // ----- several workers

  datatype Phase = Idle | Selected(task: Id) | Working(task: Id)

  /** used: every id ever enqueued; ids are fresh uuids. */
  datatype State = State(clock: int, rows: Table, lastPrune: Option<int>, workers: map<Id, Phase>, used: set<Id>)

  datatype Action =
    | Tick
    | Enqueue(id: Id, memory: Option<Id>)
    | Select(w: Id, id: Id)
    | Claim(w: Id)
    | Finish(w: Id, error: Option<string>)
    | Crash(w: Id)
    | Recover
    | Prune
    | DeleteMemory(deleted: Id)

  ghost predicate Initial(s: State) {
    s.rows == map[] && forall w :: w in s.workers ==> s.workers[w] == Idle
  }

  ghost predicate Next(s: State, a: Action, s': State) {
    match a
    case Tick => s' == s.(clock := s.clock + 1)
    case Enqueue(id, memory) =>
      && id !in s.used
      && s' == s.(rows := s.rows[id := Task(memory, Pending, 0, s.clock, None, None, None)], used := s.used + {id})
    case Select(w, id) =>
      && w in s.workers && s.workers[w] == Idle && Oldest(s.rows, id)
      && s' == s.(workers := s.workers[w := Selected(id)])
    case Claim(w) =>
      && w in s.workers && s.workers[w].Selected?
      && var id := s.workers[w].task;
         s' == s.(rows := ClaimRow(s.rows, id, s.clock),
                  workers := s.workers[w := if ClaimHits(s.rows, id) then Working(id) else Idle])
    case Finish(w, error) =>
      && w in s.workers && s.workers[w].Working?
      && var id := s.workers[w].task;
         s' == s.(rows := if error.None? then MarkDone(s.rows, id, s.clock)
             else MarkFailed(s.rows, id, s.clock, error.value),
                  workers := s.workers[w := Idle])
    case Crash(w) => w in s.workers && s' == s.(workers := s.workers[w := Idle])
    case Recover => s' == s.(rows := RecoverRows(s.rows, s.clock))
    case Prune =>
      && PruneDue(s.lastPrune, s.clock)
      && s' == s.(rows := PruneRows(s.rows, s.clock - QUEUE_RETENTION_SECONDS), lastPrune := Some(s.clock))
    case DeleteMemory(deleted) =>
      s' == s.(rows := map k | k in s.rows && s.rows[k].memory != Some(deleted) :: s.rows[k])
  }

  ghost predicate IsRun(ss: seq<State>, steps: seq<Action>) {
    && |ss| == |steps| + 1 && Initial(ss[0])
    && forall i :: 0 <= i < |steps| ==> Next(ss[i], steps[i], ss[i + 1])
  }

  // ----- what every step keeps

  /** A running row has a start time, a finished one an end time; rows were enqueued once. */
  ghost predicate Inv(s: State) {
    && s.rows.Keys <= s.used
    && (forall k ::
       k in s.rows && s.rows[k].status == Running ==> s.rows[k].startedAt.Some? && s.rows[k].startedAt.value <= s.clock)
    && (forall k ::
       k in s.rows && Terminal(s.rows[k]) ==> s.rows[k].processedAt.Some? && s.rows[k].processedAt.value <= s.clock)
  }

  /** A finished row that is still there afterwards is still finished. */
  ghost predicate FinishedStays(s: State, s': State) {
    forall k :: k in s.rows && Terminal(s.rows[k]) && k in s'.rows ==> Terminal(s'.rows[k])
  }

  lemma StepKeepsInv(s: State, a: Action, s': State)
    requires Inv(s) && Next(s, a, s')
    ensures Inv(s') && FinishedStays(s, s') && s.used <= s'.used
    ensures forall k :: k in s'.rows && k !in s.rows ==> k !in s.used
  {
  }

  lemma {:induction false} RunsKeepInv(ss: seq<State>, steps: seq<Action>)
    requires IsRun(ss, steps)
    ensures forall i :: 0 <= i < |ss| ==> Inv(ss[i])
  {
    if steps != [] {
      var n := |steps| - 1;
      RunsKeepInv(ss[..n + 1], steps[..n]);
      assert ss[..n + 1][n] == ss[n];
      StepKeepsInv(ss[n], steps[n], ss[n + 1]);
    }
  }

  /** Pruning removes exactly the finished rows that are past the retention time, and touches no other row. */
  lemma PruneExact(s: State, s': State, k: Id)
    requires Inv(s) && Next(s, Prune, s') && k in s.rows
    ensures k !in s'.rows
       <==> && (s.rows[k].status == Done || s.rows[k].status == Failed)
            && s.clock - s.rows[k].processedAt.value > 2592000
    ensures k in s'.rows ==> s'.rows[k] == s.rows[k]
  {
  }

  /** No running row can hide from recovery: the test for a start time never excludes one. */
  lemma RecoveryMissesNothing(s: State, k: Id)
    requires Inv(s) && k in s.rows && s.rows[k].status == Running
    ensures RecoverRows(s.rows, s.clock)[k].status == Pending
        <==> s.clock - s.rows[k].startedAt.value > 300
  {
  }

  /** From some state on: each step leads to the next. */
  ghost predicate Continues(ss: seq<State>, steps: seq<Action>) {
    |ss| == |steps| + 1 && forall i :: 0 <= i < |steps| ==> Next(ss[i], steps[i], ss[i + 1])
  }

  lemma {:induction false} Ticks(s: State, n: nat) returns (ss: seq<State>, steps: seq<Action>)
    ensures Continues(ss, steps) && ss[0] == s && ss[|steps|] == s.(clock := s.clock + n)
        && forall a :: a in steps ==> a == Tick
  {
    if n == 0 {
      ss, steps := [s], [];
    } else {
      var ss', steps' := Ticks(s, n - 1);
      ss, steps := ss' + [s.(clock := s.clock + n)], steps' + [Tick];
    }
  }

  /**
    No running row is stuck, not even if its worker has crashed: a recovery in time makes it pending, with its
    attempts.
   */
  lemma NothingIsStuck(s: State, k: Id) returns (ss: seq<State>, steps: seq<Action>)
    requires Inv(s) && k in s.rows && s.rows[k].status == Running
    ensures Continues(ss, steps) && ss[0] == s && forall a :: a in steps ==> a == Tick || a == Recover
    ensures var rows := ss[|steps|].rows;
      k in rows && rows[k] == s.rows[k].(status := Pending, startedAt := None)
  {
    ss, steps := Ticks(s, STALE_RUNNING_SECONDS + 1);
    var late := s.(clock := s.clock + (STALE_RUNNING_SECONDS + 1));
    var rows := RecoverRows(late.rows, late.clock);
    ss, steps := ss + [late.(rows := rows)], steps + [Recover];
  }

  /** A row that is gone stays gone, and a finished row stays finished. */
  lemma {:induction false} FinishedForever(ss: seq<State>, steps: seq<Action>, k: Id, i: nat, j: nat)
    requires IsRun(ss, steps) && i <= j < |ss| && k in ss[i].used
    requires k !in ss[i].rows || Terminal(ss[i].rows[k])
    ensures k !in ss[j].rows || Terminal(ss[j].rows[k])
    ensures k !in ss[i].rows ==> k !in ss[j].rows
    ensures k in ss[j].used
    decreases j - i
  {
    if i < j {
      RunsKeepInv(ss, steps);
      StepKeepsInv(ss[i], steps[i], ss[i + 1]);
      FinishedForever(ss, steps, k, i + 1, j);
    }
  }

  // ----- claims

  /** Step i of the run is a successful claim of row k. */
  ghost predicate ClaimsAt(ss: seq<State>, steps: seq<Action>, i: nat, k: Id)
    requires i < |steps| && i < |ss|
  {
    && steps[i].Claim? && steps[i].w in ss[i].workers
    && ss[i].workers[steps[i].w] == Selected(k) && ClaimHits(ss[i].rows, k)
  }

  /** How many of the first n steps are successful claims of row k. */
  ghost function ClaimCount(ss: seq<State>, steps: seq<Action>, k: Id, n: nat): nat
    requires n <= |steps| <= |ss|
  {
    if n == 0 then 0 else ClaimCount(ss, steps, k, n - 1) + if ClaimsAt(ss, steps, n - 1, k) then 1 else 0
  }

  lemma AttemptsStep(s: State, a: Action, s': State, k: Id)
    requires Inv(s) && Next(s, a, s')
    ensures k in s.rows && k in s'.rows ==>
      s'.rows[k].attempts == s.rows[k].attempts
        + if a.Claim? && s.workers[a.w] == Selected(k) && ClaimHits(s.rows, k) then 1 else 0
    ensures k in s'.rows && k !in s.rows ==> s'.rows[k].attempts == 0
  {
  }

  lemma {:induction false} NoClaimBeforeEnqueue(ss: seq<State>, steps: seq<Action>, k: Id, n: nat)
    requires IsRun(ss, steps) && n <= |steps| && k !in ss[n].used
    ensures ClaimCount(ss, steps, k, n) == 0
  {
    if n > 0 {
      RunsKeepInv(ss, steps);
      StepKeepsInv(ss[n - 1], steps[n - 1], ss[n]);
      NoClaimBeforeEnqueue(ss, steps, k, n - 1);
    }
  }

  /** The attempts column counts the successful claims, over every interleaving. */
  lemma {:induction false} AttemptsCountClaims(ss: seq<State>, steps: seq<Action>, k: Id, n: nat)
    requires IsRun(ss, steps) && n <= |steps| && k in ss[n].rows
    ensures ss[n].rows[k].attempts == ClaimCount(ss, steps, k, n)
  {
    RunsKeepInv(ss, steps);
    if n > 0 {
      AttemptsStep(ss[n - 1], steps[n - 1], ss[n], k);
      StepKeepsInv(ss[n - 1], steps[n - 1], ss[n]);
      if k in ss[n - 1].rows {
        AttemptsCountClaims(ss, steps, k, n - 1);
      } else {
        NoClaimBeforeEnqueue(ss, steps, k, n - 1);
      }
    }
  }

  /** A claim starts a non-pending period, which only a recovery of the stale row ends. */
  lemma {:induction false} PendingAgainMeansRecovered(ss: seq<State>, steps: seq<Action>, k: Id, i: nat, j: nat)
      returns (m: nat)
    requires IsRun(ss, steps) && i < j < |ss| && k in ss[i].used
    requires !(k in ss[i].rows && ss[i].rows[k].status == Pending)
    requires k in ss[j].rows && ss[j].rows[k].status == Pending
    ensures i <= m < j && steps[m] == Recover && k in ss[m].rows && IsStale(ss[m].rows[k], ss[m].clock)
    decreases j - i
  {
    RunsKeepInv(ss, steps);
    StepKeepsInv(ss[i], steps[i], ss[i + 1]);
    if k in ss[i].rows && steps[i] == Recover && IsStale(ss[i].rows[k], ss[i].clock) {
      m := i;
    } else {
      m := PendingAgainMeansRecovered(ss, steps, k, i + 1, j);
    }
  }

  /** At most one claim succeeds per pending period: between two claims of a row it was found stale and recovered. */
  lemma OneClaimPerPendingPeriod(ss: seq<State>, steps: seq<Action>, k: Id, i: nat, j: nat)
    requires IsRun(ss, steps) && i < j < |steps|
    requires ClaimsAt(ss, steps, i, k) && ClaimsAt(ss, steps, j, k)
    ensures exists m :: i < m < j && steps[m] == Recover && k in ss[m].rows && IsStale(ss[m].rows[k], ss[m].clock)
  {
    RunsKeepInv(ss, steps);
    StepKeepsInv(ss[i], steps[i], ss[i + 1]);
    var m := PendingAgainMeansRecovered(ss, steps, k, i + 1, j);
  }

  // ----- who works on what

  /** Each working worker has its row to itself, and the row is running (or was deleted with its memory). */
  ghost predicate Exclusive(s: State) {
    && (forall w ::
       w in s.workers && s.workers[w].Working? && s.workers[w].task in s.rows
       ==> s.rows[s.workers[w].task].status == Running)
    && (forall v, w ::
          v in s.workers && w in s.workers && s.workers[v].Working? && s.workers[w] == s.workers[v] ==> v == w)
    && (forall w :: w in s.workers && s.workers[w].Working? ==> s.workers[w].task in s.used)
  }

  lemma StepKeepsExclusive(s: State, a: Action, s': State)
    requires Inv(s) && Exclusive(s) && Next(s, a, s') && a != Recover
    ensures Exclusive(s')
  {
  }

  /** No live worker has been at a task for so long that recovery takes it for crashed. */
  ghost predicate NobodyOverdue(s: State) {
    forall w :: w in s.workers && s.workers[w].Working? && s.workers[w].task in s.rows
        ==> !IsStale(s.rows[s.workers[w].task], s.clock)
  }

  /** Recovery keeps work exclusive if and only if no live worker is overdue. */
  lemma RecoverySafeIff(s: State, s': State)
    requires Inv(s) && Exclusive(s) && Next(s, Recover, s')
    ensures Exclusive(s') <==> NobodyOverdue(s)
  {
    if Exclusive(s') {
      forall w | w in s.workers && s.workers[w].Working? && s.workers[w].task in s.rows
        ensures !IsStale(s.rows[s.workers[w].task], s.clock)
      {
        assert s'.rows[s.workers[w].task].status == Running;
      }
    }
  }

  /** In every run in which recovery never meets an overdue live worker, work is exclusive throughout. */
  lemma {:induction false} WorkIsExclusive(ss: seq<State>, steps: seq<Action>)
    requires IsRun(ss, steps)
    requires forall i :: 0 <= i < |steps| && steps[i] == Recover ==> NobodyOverdue(ss[i])
    ensures forall i :: 0 <= i < |ss| ==> Exclusive(ss[i])
  {
    if steps != [] {
      var n := |steps| - 1;
      WorkIsExclusive(ss[..n + 1], steps[..n]);
      assert ss[..n + 1][n] == ss[n];
      RunsKeepInv(ss, steps);
      if steps[n] == Recover {
        RecoverySafeIff(ss[n], ss[n + 1]);
      } else {
        StepKeepsExclusive(ss[n], steps[n], ss[n + 1]);
      }
    }
  }
}
