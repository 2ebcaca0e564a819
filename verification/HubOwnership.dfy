/**
  Hub ownership as one process sees it: the registry of tokens it holds, and the cache
  of foreign claims that turns its own writes off.
 */
module HubOwnership {
  import opened Wrappers
  import opened Ids

  type Project = Id
  type Pid = Id

  const STALE_AFTER: real := 60.0

  datatype Content = Corrupt | Claim(pid: Pid, started: real, heartbeat: real)

  datatype Token = Token(project: Project, pid: Pid, startedAt: real)

  datatype Info = Info(pid: Pid, heartbeat: real)

  type OwnerFiles = map<Project, Content>

  /** What reading the owner file yields: nothing if it is absent or corrupt. */
  function ReadOwner(files: OwnerFiles, project: Project): Option<Info> {
    if project in files && files[project].Claim? then Some(Info(files[project].pid, files[project].heartbeat)) else None
  }

  predicate Fresh(info: Info, ttl: real, now: real) {
    now - info.heartbeat <= ttl
  }

  // ----- the cache of foreign claims

  type Cache = map<Project, Info>

  /**
    The cache after `check`: a fresh foreign claim is entered, an absent or stale one removed, an own fresh one
    ignored.
   */
  function CacheAfterCheck(cache: Cache, claim: Option<Info>, me: Pid, project: Project, ttl: real, now: real): Cache {
    if claim.None? || !Fresh(claim.value, ttl, now) then cache - {project}
    else if claim.value.pid != me then cache[project := claim.value]
    else cache
  }

  /** Whether the cache turns writes to the project off. */
  predicate CacheBlocks(cache: Cache, project: Project, now: real) {
    project in cache && Fresh(cache[project], STALE_AFTER, now)
  }

  /** The write guard: check at `now`, then look at the cache at `later`. */
  predicate WriteBlocked(cache: Cache, claim: Option<Info>, me: Pid, project: Project, now: real, later: real) {
    CacheBlocks(CacheAfterCheck(cache, claim, me, project, STALE_AFTER, now), project, later)
  }

  /** What the guard is meant to say: another process holds a claim that is still fresh. */
  predicate ForeignOwned(claim: Option<Info>, me: Pid, later: real) {
    claim.Some? && claim.value.pid != me && Fresh(claim.value, STALE_AFTER, later)
  }

  /**
    The guard says what it is meant to say if and only if it is not the case that this process
    holds a fresh claim itself while a foreign claim it cached earlier has not aged out yet:
    an own claim does not clear the cache.
   */
  lemma GuardExactIff(cache: Cache, claim: Option<Info>, me: Pid, project: Project, now: real, later: real)
    requires now <= later
    ensures (WriteBlocked(cache, claim, me, project, now, later) <==> ForeignOwned(claim, me, later))
       <==>
         !(claim.Some? && claim.value.pid == me && Fresh(claim.value, STALE_AFTER, now)
         && CacheBlocks(cache, project, later))
  {
    var cache' := CacheAfterCheck(cache, claim, me, project, STALE_AFTER, now);
    assert claim.Some? && claim.value.pid != me && Fresh(claim.value, STALE_AFTER, now)
        ==> cache'[project] == claim.value;
  }

  /** A process of the hub, with the owner files it shares with the others. */
  class HubProcess {
    const pid: Pid
    const bypass: bool
    var files: OwnerFiles
    var registry: map<Project, Token>
    var disabledWrites: Cache

    /** Tokens are this process's own, and only foreign claims are cached. */
    ghost predicate Valid()
      reads this
    {
      && (forall p :: p in registry ==> registry[p].project == p && registry[p].pid == pid)
      && (forall p :: p in disabledWrites ==> disabledWrites[p].pid != pid)
    }

    constructor (pid: Pid, bypass: bool, files: OwnerFiles)
      ensures Valid() && this.pid == pid && this.bypass == bypass && this.files == files
      ensures registry == map[] && disabledWrites == map[]
    {
      this.pid, this.bypass, this.files := pid, bypass, files;
      registry, disabledWrites := map[], map[];
    }

    /** Takes the project exactly if it has no owner file or a stale claim; a corrupt file is left to the operator. */
    method Acquire(project: Project, ttl: real, now: real) returns (token: Option<Token>)
      requires Valid()
      modifies this`files, this`registry
      ensures Valid()
      ensures token.Some? <==>
        old(project !in files || (files[project].Claim? && now - files[project].heartbeat > ttl))
      ensures token.Some? ==>
        && token.value == Token(project, pid, now)
        && files == old(files)[project := Claim(pid, now, now)]
        && registry == old(registry)[project := token.value]
      ensures token.None? ==> files == old(files) && registry == old(registry)
    {
      if project in files {
        var existing := ReadOwner(files, project);
        if existing.None? || now - existing.value.heartbeat <= ttl {
          return None;
        }
      }
      files := files[project := Claim(pid, now, now)];
      var mine := Token(project, pid, now);
      registry := registry[project := mine];
      token := Some(mine);
    }

    /** Removes the owner file, whoever it names, and the token. */
    method Release(token: Token)
      requires Valid()
      modifies this`files, this`registry
      ensures Valid()
      ensures files == old(files) - {token.project} && registry == old(registry) - {token.project}
    {
      files := files - {token.project};
      registry := registry - {token.project};
    }

    /** Refreshes the claim, but only while the file still names this process. */
    method WriteHeartbeat(token: Token, now: real) returns (written: bool)
      requires Valid() && token.pid == pid
      modifies this`files
      ensures written <==> old(token.project in files && files[token.project].Claim? && files[token.project].pid == pid)
      ensures files == if written then old(files)[token.project := Claim(pid, token.startedAt, now)] else old(files)
    {
      var info := ReadOwner(files, token.project);
      written := info.Some? && info.value.pid == token.pid;
      if written {
        files := files[token.project := Claim(token.pid, token.startedAt, now)];
      }
    }

    method Check(project: Project, ttl: real, now: real) returns (info: Option<Info>)
      requires Valid()
      modifies this`disabledWrites
      ensures Valid()
      ensures info.Some?
          <==> !bypass && ReadOwner(files, project).Some? && Fresh(ReadOwner(files, project).value, ttl, now)
      ensures info.Some? ==> info == ReadOwner(files, project)
      ensures disabledWrites == if bypass then old(disabledWrites)
                                else CacheAfterCheck(old(disabledWrites), ReadOwner(files, project), pid, project, ttl,
                                                     now)
    {
      if bypass {
        return None;
      }
      info := ReadOwner(files, project);
      if info.None? {
        disabledWrites := disabledWrites - {project};
        return;
      }
      if now - info.value.heartbeat > ttl {
        disabledWrites := disabledWrites - {project};
        return None;
      }
      if info.value.pid != pid {
        disabledWrites := disabledWrites[project := info.value];
      }
    }

    method IsDisabledFor(project: Project, now: real) returns (disabled: bool)
      requires Valid()
      modifies this`disabledWrites
      ensures Valid()
      ensures disabled <==> !bypass && CacheBlocks(old(disabledWrites), project, now)
      ensures disabledWrites == if bypass || disabled then old(disabledWrites) else old(disabledWrites) - {project}
    {
      if bypass {
        return false;
      }
      if project !in disabledWrites {
        assert disabledWrites == disabledWrites - {project};
        return false;
      }
      if now - disabledWrites[project].heartbeat > STALE_AFTER {
        disabledWrites := disabledWrites - {project};
        return false;
      }
      disabled := true;
    }

    /** The guard of every write: re-reads the owner file, then consults the cache. */
    method WriteGuard(project: Project, now: real, later: real) returns (blocked: bool)
      requires Valid() && now <= later
      modifies this`disabledWrites
      ensures Valid()
      ensures blocked
          <==> !bypass && WriteBlocked(old(disabledWrites), ReadOwner(files, project), pid, project, now, later)
      ensures var claim := ReadOwner(files, project);
        var cache := CacheAfterCheck(old(disabledWrites), claim, pid, project, STALE_AFTER, now);
        disabledWrites == if bypass then old(disabledWrites) else if blocked then cache else cache - {project}
    {
      var _ := Check(project, STALE_AFTER, now);
      blocked := IsDisabledFor(project, later);
    }
  }

  /**
    How the exception comes about: the guard sees a foreign claim, the foreign owner
    releases, this process acquires, and its next write is refused although it is the owner.  The foreign owner's
    release is the file's disappearance.
   */
  method OwnerRefused(me: HubProcess, project: Project, other: Pid, t: real) returns (blocked: bool)
    requires me.Valid() && !me.bypass && other != me.pid && me.disabledWrites == map[]
    requires me.files == map[project := Claim(other, t, t)]
    modifies me
    ensures me.Valid() && project in me.registry
    ensures project in me.files && me.files[project] == Claim(me.pid, t + 2.0, t + 2.0)
    ensures blocked
  {
    blocked := me.WriteGuard(project, t + 1.0, t + 1.0);
    me.files := map[];
    var token := me.Acquire(project, STALE_AFTER, t + 2.0);
    assert token.Some? && project in me.registry;
    blocked := me.WriteGuard(project, t + 3.0, t + 3.0);
  }

  /**
    A token kept after the project was taken over: its release removes the new owner's fresh claim,
    and a third process acquires the project at once, which it could not have done before.  The owner files are one
    directory for both: the third process's view of them is brought up to date before each of its steps.
   */
  method LateRelease(me: HubProcess, third: HubProcess, token: Token, other: Pid, ttl: real, t: real)
    returns (before: Option<Token>, after: Option<Token>)
    requires me != third && me.Valid() && third.Valid() && ttl >= 0.0
    requires me.files == map[token.project := Claim(other, t, t)]
    modifies me, third
    ensures before.None? && after == Some(Token(token.project, third.pid, t)) && me.Valid() && third.Valid()
    ensures third.files == map[token.project := Claim(third.pid, t, t)]
  {
    third.files := me.files;
    before := third.Acquire(token.project, ttl, t);
    me.Release(token);
    third.files := me.files;
    after := third.Acquire(token.project, ttl, t);
  }
}
