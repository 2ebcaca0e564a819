/** The write guard of the hub in plain comparisons. */
module CachedClaims {
  import opened HubOwnership
  import opened Wrappers

  /** The owner file holds a readable claim of this process and this heartbeat. */
  ghost predicate Says(files: OwnerFiles, project: Project, pid: Pid, heartbeat: real) {
    project in files && files[project].Claim? && files[project].pid == pid && files[project].heartbeat == heartbeat
  }

  ghost predicate Unreadable(files: OwnerFiles, project: Project) {
    project !in files || files[project] == Corrupt
  }

  /** Without a readable claim, or with one more than a minute old, no write is refused. */
  lemma NoClaimNoBlock(files: OwnerFiles, cache: Cache, me: Pid, project: Project, now: real, later: real, pid: Pid,
                       heartbeat: real)
    requires Unreadable(files, project) || (Says(files, project, pid, heartbeat) && heartbeat + 60.0 < now)
    ensures !WriteBlocked(cache, ReadOwner(files, project), me, project, now, later)
  {
  }

  /** A claim of another process that is fresh refuses the write as long as it is; the cache plays no part. */
  lemma ForeignClaimBlocks(files: OwnerFiles, cache: Cache, me: Pid, project: Project, now: real, later: real, pid: Pid,
                           heartbeat: real)
    requires Says(files, project, pid, heartbeat) && pid != me && now <= heartbeat + 60.0
    ensures WriteBlocked(cache, ReadOwner(files, project), me, project, now, later) <==> later <= heartbeat + 60.0
  {
    var claim := ReadOwner(files, project);
    assert CacheAfterCheck(cache, claim, me, project, STALE_AFTER, now)[project] == claim.value;
  }

  /** With an own fresh claim only a foreign claim cached before can refuse it, until that is a minute old. */
  lemma OwnClaimLeavesCache(files: OwnerFiles, cache: Cache, me: Pid, project: Project, now: real, later: real,
                            heartbeat: real)
    requires Says(files, project, me, heartbeat) && now <= heartbeat + 60.0
    ensures WriteBlocked(cache, ReadOwner(files, project), me, project, now, later)
       <==> project in cache && later <= cache[project].heartbeat + 60.0
  {
  }

  /** Whatever is checked, what is cached for other projects stays. */
  lemma OtherProjectsKept(cache: Cache, claim: Option<Info>, me: Pid, project: Project, ttl: real, now: real,
                          other: Project)
    requires other != project
    ensures var cache' := CacheAfterCheck(cache, claim, me, project, ttl, now);
      (other in cache' <==> other in cache) && (other in cache ==> cache'[other] == cache[other])
  {
  }
}
