/**
 * The workflow of `src/overleaf2gitlab/backup/operations.py` as methods on a
 * `Mirror`, each proved to compute what `OperationsSpec` says. Provisioning
 * and inspection are the same steps as in `backup.py` and are shared with
 * the `Backup` module.
 */
module Operations {
  import opened Wrappers
  import opened Ordering
  import opened Git
  import BackupSpec
  import Backup
  import opened OperationsSpec

  /** One target of `setup_git_remotes`: `add`, `set-url` or nothing, judged
      against the snapshot taken before any change. */
  method PatchRemote(m: Mirror, snapshot: map<string, string>, t: Target, g: Oracle) returns (ok: bool)
    modifies m
    ensures ok == PatchOne(old(m.remotes), snapshot, t, g).Some?
    ensures m.remotes == if ok then PatchOne(old(m.remotes), snapshot, t, g).value else old(m.remotes)
    ensures m.isRepo == old(m.isRepo)
  {
    if t.name in snapshot {
      if snapshot[t.name] != t.url {
        ok := m.Run(RemoteSetUrl(t.name, t.url), g);
      } else {
        ok := true;
      }
    } else {
      ok := m.Run(RemoteAdd(t.name, t.url), g);
    }
  }

  /** The targets in order against one snapshot, stopping at the first
      command that fails. */
  method PatchTargets(m: Mirror, snapshot: map<string, string>, ts: seq<Target>, g: Oracle) returns (ok: bool)
    modifies m
    ensures PatchAll(old(m.remotes), snapshot, ts, g) == Applied(m.remotes, ok)
    ensures m.isRepo == old(m.isRepo)
  {
    ghost var m0 := m.remotes;
    assert ts[..0] == [];
    var i := 0;
    while i < |ts|
      invariant 0 <= i <= |ts|
      invariant m.isRepo == old(m.isRepo)
      invariant PatchAll(m0, snapshot, ts[..i], g) == Applied(m.remotes, true)
    {
      PatchAllStep(m0, snapshot, ts, i, g);
      ok := PatchRemote(m, snapshot, ts[i], g);
      if !ok {
        PatchAllAfterFailure(m0, snapshot, ts, i + 1, g);
        return;
      }
      i := i + 1;
    }
    assert ts[..i] == ts;
    ok := true;
  }

  /** `setup_git_remotes`: provision the mirror, take one snapshot, then patch
      origin and each `backup<i>`, stopping at the first command that fails. */
  method SetupGitRemotes(m: Mirror, id: string, paths: seq<string>, g: Oracle) returns (v: Verdict)
    modifies m
    ensures v == PatchSetupResult(old(m.isRepo), old(m.remotes), id, paths, g)
    ensures v != Raised ==> m.isRepo && m.remotes == PatchedRemotes(old(m.isRepo), old(m.remotes), id, paths, g)
    ensures v == Raised ==> BackupSpec.ProvisionLeaves(old(m.isRepo), old(m.remotes), g, m.isRepo, m.remotes)
  {
    var raised := Backup.MkCacheOverleafGitDir(m, g);
    if raised {
      return Raised;
    }
    var snapshot := Backup.GetAllGitRemotes(m, g);
    var ok := PatchTargets(m, snapshot, Targets(id, paths), g);
    return Returned(ok);
  }

  /** `git push <remote> master` to each remote in order, going on past failures. */
  method PushMaster(remotes: seq<string>) returns (pushes: seq<Cmd>)
    ensures pushes == MasterPushes(remotes)
  {
    pushes := [];
    var i := 0;
    while i < |remotes|
      invariant 0 <= i <= |remotes|
      invariant pushes == MasterPushes(remotes[..i])
    {
      assert remotes[..i + 1] == remotes[..i] + [remotes[i]];
      pushes := pushes + [PushBranch(remotes[i], "master")];
      i := i + 1;
    }
    assert remotes[..i] == remotes;
  }

  /** `sync_repositories`: pull `master` from origin, then push `master` to
      every backup-prefixed remote the inspection reports, in sorted order. */
  method SyncRepositories(m: Mirror, g: Oracle) returns (success: bool, trace: seq<Cmd>)
    ensures BackupSpec.SyncRun(success, trace) == MasterSyncResult(m.isRepo, Observe(m.remotes, g), g)
  {
    if !m.isRepo {
      return false, [];
    }
    if !g.ok(Pull("master")) {
      return false, [Pull("master")];
    }
    var current := Backup.GetAllGitRemotes(m, g);
    var backups := BackupRemotes(current);
    if backups == {} {
      assert SortedNames(backups) == [];
      return true, [Pull("master")];
    }
    var pushes := PushMaster(SortedNames(backups));
    return true, [Pull("master")] + pushes;
  }

  /** `backup_overleaf_project`: setup, then sync, then (when asked) remove
      the mirror, where a failed removal is only a warning. */
  method BackupOverleafProject(m: Mirror, id: string, paths: seq<string>, clean: bool, g: Oracle) returns (v: Verdict)
    modifies m
    ensures v == PatchBackupResult(old(m.isRepo), old(m.remotes), id, paths, clean, g).verdict
    ensures PatchSetupResult(old(m.isRepo), old(m.remotes), id, paths, g) == Raised ==>
      BackupSpec.ProvisionLeaves(old(m.isRepo), old(m.remotes), g, m.isRepo, m.remotes)
    ensures PatchSetupResult(old(m.isRepo), old(m.remotes), id, paths, g) != Raised && !(v == Returned(true) && clean && g.ok(RemoveCache)) ==>
      m.isRepo && m.remotes == PatchedRemotes(old(m.isRepo), old(m.remotes), id, paths, g)
    ensures v == Returned(true) && clean && g.ok(RemoveCache) ==> !m.isRepo && m.remotes == map[]
  {
    ghost var run := PatchBackupResult(m.isRepo, m.remotes, id, paths, clean, g);
    ghost var patched := PatchedRemotes(m.isRepo, m.remotes, id, paths, g);
    var setup := SetupGitRemotes(m, id, paths, g);
    if setup != Returned(true) {
      assert run.verdict == setup;
      return setup;
    }
    var synced, _ := SyncRepositories(m, g);
    assert synced == MasterSyncResult(true, Observe(patched, g), g).success;
    if !synced {
      assert run.verdict == Returned(false);
      return Returned(false);
    }
    if clean {
      var _ := m.RemoveDirectory(g);
    }
    assert run.verdict == Returned(true);
    return Returned(true);
  }
}
