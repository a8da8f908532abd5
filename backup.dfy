/**
 * The workflow of `src/overleaf2gitlab/backup.py` as methods on a `Mirror`:
 * each issues its git commands through the mirror and is proved to end as
 * the matching function of `BackupSpec` says.
 */
module Backup {
  import opened Wrappers
  import opened Text
  import opened Ordering
  import opened Git
  import opened BackupSpec

  /** `get_all_git_remotes`: every listed name with a non-blank URL, stripped;
      nothing at all when the listing fails. */
  method GetAllGitRemotes(m: Mirror, g: Oracle) returns (found: map<string, string>)
    ensures found == Observe(m.remotes, g)
  {
    found := map[];
    if !g.listOk {
      return;
    }
    var todo := m.remotes.Keys;
    while todo != {}
      invariant todo <= m.remotes.Keys
      invariant forall n :: n in found <==> n in m.remotes && n !in todo && n != "" && g.urlOk(n) && Strip(m.remotes[n]) != ""
      invariant forall n :: n in found ==> found[n] == Strip(m.remotes[n])
      decreases |todo|
    {
      var n :| n in todo;
      if n != "" && g.urlOk(n) {
        var url := Strip(m.remotes[n]);
        if url != "" {
          found := found[n := url];
        }
      }
      todo := todo - {n};
    }
  }

  /** `mk_cache_overleaf_git_dir`: a mirror without `.git` gets `git init` and
      the credential helper; either failing raises. */
  method MkCacheOverleafGitDir(m: Mirror, g: Oracle) returns (raised: bool)
    modifies m
    ensures raised == ProvisionRaises(old(m.isRepo), g)
    ensures !raised ==> m.isRepo && m.remotes == Start(old(m.isRepo), old(m.remotes))
    ensures raised ==> ProvisionLeaves(old(m.isRepo), old(m.remotes), g, m.isRepo, m.remotes)
  {
    raised := false;
    if !m.isRepo {
      var ok := m.GitInit(g);
      if !ok {
        return true;
      }
      raised := !g.ok(ConfigCredentialHelper);
    }
  }

  /** The checks `check_cache_overleaf_git_config_valid` runs on the inspected
      remotes: origin, then `backup0`, `backup1`, ... in order, then the warning. */
  method CheckRemotes(current: map<string, string>, id: string, paths: seq<string>) returns (diagnosis: Diagnosis)
    ensures diagnosis == Diagnose(true, current, id, paths)
  {
    var expectedOrigin := OriginUrl(id);
    if "origin" !in current {
      return MissingOrigin;
    }
    if current["origin"] != expectedOrigin {
      return OriginMismatch(current["origin"]);
    }
    var expected := map[];
    var i := 0;
    while i < |paths|
      invariant 0 <= i <= |paths|
      invariant expected == ExpectedBackups(paths[..i])
    {
      ExpectedBackupsGrow(paths, i);
      expected := expected[BackupName(i) := BackupUrl(paths[i])];
      i := i + 1;
    }
    assert paths[..|paths|] == paths;
    i := 0;
    while i < |paths|
      invariant 0 <= i <= |paths|
      invariant CheckBackups(current, paths, i) == CheckBackups(current, paths, 0)
    {
      var name := BackupName(i);
      ExpectedBackupsHas(paths, i);
      if name !in current {
        return MissingBackup(name);
      }
      if current[name] != expected[name] {
        return BackupMismatch(name, current[name]);
      }
      i := i + 1;
    }
    return Valid(current.Keys - ({"origin"} + expected.Keys));
  }

  /** `check_cache_overleaf_git_config_valid`: the verdict and what it reports. */
  method CheckCacheOverleafGitConfigValid(m: Mirror, id: string, paths: seq<string>, g: Oracle)
    returns (valid: bool, diagnosis: Diagnosis)
    ensures diagnosis == Diagnose(m.isRepo, Observe(m.remotes, g), id, paths)
    ensures valid == diagnosis.Valid?
    ensures valid <==> m.isRepo && Canonical(Observe(m.remotes, g), id, paths)
  {
    if !m.isRepo {
      return false, NotARepo;
    }
    var current := GetAllGitRemotes(m, g);
    diagnosis := CheckRemotes(current, id, paths);
    valid := diagnosis.Valid?;
    DiagnoseValidIff(true, current, id, paths);
  }

  /** The origin step: `set-url` when the inspection lists origin, else `add`. */
  method SetOrigin(m: Mirror, id: string, g: Oracle) returns (ok: bool)
    modifies m
    ensures ok == Step(old(m.remotes), OriginCommand(old(m.remotes), id, g), g).Some?
    ensures ok ==> m.remotes == WithOrigin(old(m.remotes), id)
    ensures !ok ==> m.remotes == old(m.remotes)
    ensures m.isRepo == old(m.isRepo)
  {
    ghost var m0 := m.remotes;
    var originUrl := OriginUrl(id);
    var current := GetAllGitRemotes(m, g);
    if "origin" in current {
      ok := m.Run(RemoteSetUrl("origin", originUrl), g);
    } else {
      ok := m.Run(RemoteAdd("origin", originUrl), g);
    }
    if ok {
      OriginStepSetsOrigin(m0, id, g);
    }
  }

  /** One more removed name, as a map difference. */
  lemma RemoveOneMore(m: map<string, string>, stale: set<string>, todo: set<string>, n: string)
    requires n in stale && n in todo
    ensures (m - (stale - todo)) - {n} == m - (stale - (todo - {n}))
  {
    assert stale - (todo - {n}) == (stale - todo) + {n};
  }

  /** The removal loop: each backup-prefixed name among `names` is removed,
      in any order; the first failure stops the loop. */
  method RemoveBackupPrefixed(m: Mirror, names: set<string>, g: Oracle) returns (ok: bool)
    requires names <= m.remotes.Keys
    modifies m
    ensures ok == forall n :: n in names && IsBackupRemote(n) ==> g.ok(RemoteRemove(n))
    ensures ok ==> m.remotes == old(m.remotes) - (set n | n in names && IsBackupRemote(n))
    ensures m.remotes.Keys <= old(m.remotes).Keys
    ensures forall n :: n in m.remotes ==> m.remotes[n] == old(m.remotes)[n]
    ensures forall n :: n in old(m.remotes) && n !in m.remotes ==> n in names && IsBackupRemote(n) && g.ok(RemoteRemove(n))
    ensures !ok ==> exists n :: n in names && IsBackupRemote(n) && !g.ok(RemoteRemove(n)) && n in m.remotes
    ensures m.isRepo == old(m.isRepo)
  {
    ghost var m1 := m.remotes;
    ghost var prefixed := set n | n in names && IsBackupRemote(n);
    var todo := names;
    while todo != {}
      invariant todo <= names
      invariant m.isRepo == old(m.isRepo)
      invariant m.remotes == m1 - (prefixed - todo)
      invariant forall n :: n in prefixed - todo ==> g.ok(RemoteRemove(n))
      decreases |todo|
    {
      var n :| n in todo;
      if HasPrefix("backup", n) {
        assert n in prefixed && n in m.remotes;
        assert g.ok(RemoteRemove(n)) ==> Step(m.remotes, RemoteRemove(n), g) == Some(m.remotes - {n});
        ok := m.Run(RemoteRemove(n), g);
        if !ok {
          assert n in m.remotes;
          return;
        }
        RemoveOneMore(m1, prefixed, todo, n);
      } else {
        assert prefixed - (todo - {n}) == prefixed - todo;
      }
      todo := todo - {n};
    }
    assert prefixed - todo == prefixed;
    return true;
  }

  /** The second inspection and the removal of every backup-prefixed remote it reports. */
  method RemoveStaleBackups(m: Mirror, g: Oracle) returns (ok: bool)
    modifies m
    ensures ok == RemovalsSucceed(old(m.remotes), g)
    ensures ok ==> m.remotes == Pruned(old(m.remotes), g)
    ensures !ok ==> PartlyPruned(old(m.remotes), m.remotes, g)
    ensures m.isRepo == old(m.isRepo)
  {
    ghost var m1 := m.remotes;
    var current := GetAllGitRemotes(m, g);
    assert (set n | n in current.Keys && IsBackupRemote(n)) == StaleBackups(m1, g);
    ok := RemoveBackupPrefixed(m, current.Keys, g);
  }

  /** One more added entry, as a map union. */
  lemma AddOneMore(m: map<string, string>, e: map<string, string>, k: string, v: string)
    ensures (m + e)[k := v] == m + e[k := v]
  {
  }

  /** The add loop: `git remote add backup<i> ssh://<paths[i]>` in list order;
      the first failure stops the loop. */
  method AddBackups(m: Mirror, paths: seq<string>, g: Oracle) returns (ok: bool)
    modifies m
    ensures ok == AddsSucceed(old(m.remotes), paths, g)
    ensures ok ==> m.remotes == old(m.remotes) + ExpectedBackups(paths)
    ensures !ok ==> (exists k :: 0 <= k < |paths| && m.remotes == old(m.remotes) + ExpectedBackups(paths[..k])
                       && !(BackupName(k) !in old(m.remotes) && g.ok(RemoteAdd(BackupName(k), BackupUrl(paths[k])))))
    ensures m.isRepo == old(m.isRepo)
  {
    ghost var m2 := m.remotes;
    var i := 0;
    while i < |paths|
      invariant 0 <= i <= |paths|
      invariant m.isRepo == old(m.isRepo)
      invariant m.remotes == m2 + ExpectedBackups(paths[..i])
      invariant AddsSucceed(m2, paths[..i], g)
    {
      var name := BackupName(i);
      NextBackupNameIsFresh(paths[..i]);
      ghost var before := m.remotes;
      assert name in before <==> name in m2;
      ok := m.Run(RemoteAdd(name, BackupUrl(paths[i])), g);
      AddsSucceedGrow(m2, paths, i, g);
      if !ok {
        AddsSucceedPrefix(m2, paths, i + 1, g);
        assert m.remotes == m2 + ExpectedBackups(paths[..i]);
        return;
      }
      assert m.remotes == before[name := BackupUrl(paths[i])];
      ExpectedBackupsGrow(paths, i);
      AddOneMore(m2, ExpectedBackups(paths[..i]), name, BackupUrl(paths[i]));
      i := i + 1;
    }
    assert paths[..|paths|] == paths;
    return true;
  }

  /** `setup_git_remotes`: provisioning, the origin step, the removals and the
      adds; the first failing git command inside the try ends it with false,
      with no rollback. */
  method SetupGitRemotes(m: Mirror, id: string, paths: seq<string>, g: Oracle) returns (v: Verdict)
    modifies m
    ensures v == SetupResult(old(m.isRepo), old(m.remotes), id, paths, g)
    ensures v == Returned(true) ==> m.isRepo && m.remotes == Reconciled(old(m.isRepo), old(m.remotes), id, paths, g)
    ensures SetupLeaves(old(m.isRepo), old(m.remotes), id, paths, g, m.isRepo, m.remotes)
  {
    var raised := MkCacheOverleafGitDir(m, g);
    if raised {
      return Raised;
    }
    var ok := SetOrigin(m, id, g);
    if !ok {
      return Returned(false);
    }
    ok := RemoveStaleBackups(m, g);
    if !ok {
      return Returned(false);
    }
    ok := AddBackups(m, paths, g);
    return Returned(ok);
  }

  /** The fan-out over a concatenation is the concatenation of the fan-outs. */
  lemma {:induction false} FanOutAppend(a: seq<string>, b: seq<string>, branch: string, g: Oracle)
    ensures FanOut(a + b, branch, g) == FanOut(a, branch, g) + FanOut(b, branch, g)
    decreases |a|
  {
    if |a| == 0 {
      assert a + b == b;
    } else {
      assert (a + b)[0] == a[0];
      assert (a + b)[1..] == a[1..] + b;
      FanOutAppend(a[1..], b, branch, g);
    }
  }

  /** The pull loop over `main` and then `master`: pulls until one works. */
  method PullOrigin(g: Oracle) returns (pulled: bool, attempts: seq<Cmd>)
    ensures pulled == Pulled(g) && attempts == PullTrace(g)
  {
    var branches := ["main", "master"];
    pulled := false;
    attempts := [];
    var k := 0;
    while k < |branches|
      invariant 0 <= k <= |branches|
      invariant !pulled
      invariant k >= 1 ==> !g.ok(Pull("main"))
      invariant k >= 2 ==> !g.ok(Pull("master"))
      invariant attempts == if k == 0 then [] else if k == 1 then [Pull("main")] else [Pull("main"), Pull("master")]
    {
      assert branches[k] == if k == 0 then "main" else "master";
      attempts := attempts + [Pull(branches[k])];
      if g.ok(Pull(branches[k])) {
        pulled := true;
        break;
      }
      k := k + 1;
    }
  }

  /** The serial push loop: the branch to every remote, in the given order, and
      the tags to those that accepted it; a failure moves on to the next. */
  method PushToBackups(remotes: seq<string>, branch: string, g: Oracle) returns (pushes: seq<Cmd>)
    ensures pushes == FanOut(remotes, branch, g)
  {
    pushes := [];
    var i := 0;
    while i < |remotes|
      invariant 0 <= i <= |remotes|
      invariant pushes == FanOut(remotes[..i], branch, g)
    {
      var remote := remotes[i];
      pushes := pushes + [PushBranch(remote, branch)];
      if g.ok(PushBranch(remote, branch)) {
        pushes := pushes + [PushTags(remote)];
      }
      FanOutAppend(remotes[..i], [remote], branch, g);
      assert remotes[..i + 1] == remotes[..i] + [remote];
      i := i + 1;
    }
    assert remotes[..|remotes|] == remotes;
  }

  /** `sync_repositories`: its result and the commands it issued. */
  method SyncRepositories(m: Mirror, g: Oracle) returns (success: bool, trace: seq<Cmd>)
    ensures SyncRun(success, trace) == SyncResult(m.isRepo, Observe(m.remotes, g), g)
  {
    if !m.isRepo {
      return false, [];
    }
    if !g.ok(RemoteUpdate) {
      return false, [RemoteUpdate];
    }
    var pulled, attempts := PullOrigin(g);
    if !pulled {
      return false, [RemoteUpdate] + attempts;
    }
    var current := GetAllGitRemotes(m, g);
    SyncAfterPull(current, g);
    var backups := BackupRemotes(current);
    if backups == {} {
      return true, [RemoteUpdate] + attempts + [FetchTags];
    }
    var sorted := SortedNames(backups);
    var branch := match g.head
      case Some(name) => name
      case None => "main";
    var pushes := PushToBackups(sorted, branch, g);
    return true, [RemoteUpdate] + attempts + [FetchTags, RevParseHead] + pushes;
  }

  /** `backup_overleaf_project`: setup, validation, sync and optional cleanup,
      each stage only after the previous one succeeded. */
  method BackupOverleafProject(m: Mirror, id: string, paths: seq<string>, clean: bool, g: Oracle) returns (v: Verdict)
    modifies m
    ensures v == BackupResult(old(m.isRepo), old(m.remotes), id, paths, clean, g).verdict
    ensures SetupResult(old(m.isRepo), old(m.remotes), id, paths, g) != Returned(true) ==>
      SetupLeaves(old(m.isRepo), old(m.remotes), id, paths, g, m.isRepo, m.remotes)
    ensures SetupResult(old(m.isRepo), old(m.remotes), id, paths, g) == Returned(true) && !(v == Returned(true) && clean) ==>
      m.isRepo && m.remotes == Reconciled(old(m.isRepo), old(m.remotes), id, paths, g)
    ensures v == Returned(true) && clean ==> !m.isRepo && m.remotes == map[]
  {
    ghost var run := BackupResult(m.isRepo, m.remotes, id, paths, clean, g);
    ghost var reconciled := Reconciled(m.isRepo, m.remotes, id, paths, g);
    var setup := SetupGitRemotes(m, id, paths, g);
    if setup != Returned(true) {
      assert run.verdict == setup;
      return setup;
    }
    ghost var current := Observe(reconciled, g);
    var valid, _ := CheckCacheOverleafGitConfigValid(m, id, paths, g);
    assert valid == Diagnose(true, current, id, paths).Valid?;
    if !valid {
      assert run.verdict == Returned(false);
      return Returned(false);
    }
    var synced, _ := SyncRepositories(m, g);
    assert synced == SyncResult(true, current, g).success;
    if !synced {
      assert run.verdict == Returned(false);
      return Returned(false);
    }
    if clean {
      var removed := m.RemoveDirectory(g);
      if !removed {
        assert run.verdict == Raised;
        return Raised;
      }
    }
    assert run.verdict == Returned(true);
    return Returned(true);
  }
}
