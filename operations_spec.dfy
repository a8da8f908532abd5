/**
 * What `src/overleaf2gitlab/backup/operations.py` computes: a reconciler that
 * only patches (adds a missing remote, re-points a differing one, never
 * removes anything), a sync that pulls and pushes `master` only, and an
 * orchestrator without a validation step whose cleanup failure is a warning.
 */
module OperationsSpec {
  import opened Wrappers
  import opened Text
  import opened Ordering
  import opened Git
  import BackupSpec

  // ---------------------------------------------------------------------------
  // Patching reconciler (setup_git_remotes)
  // ---------------------------------------------------------------------------

  /** A remote the configuration asks for: its name and URL. */
  datatype Target = Target(name: string, url: string)

  /** origin first, then `backup<i>` for each path, in list order. */
  function Targets(id: string, paths: seq<string>): (t: seq<Target>)
    ensures |t| == |paths| + 1
    ensures t[0] == Target("origin", OriginUrl(id))
    ensures forall i :: 0 <= i < |paths| ==> t[i + 1] == Target(BackupName(i), BackupUrl(paths[i]))
    decreases |paths|
  {
    if |paths| == 0 then [Target("origin", OriginUrl(id))]
    else Targets(id, paths[..|paths| - 1]) + [Target(BackupName(|paths| - 1), BackupUrl(paths[|paths| - 1]))]
  }

  /** The command issued for one target, judged against the snapshot taken
      before any change: `add` when absent, `set-url` when the URL differs,
      nothing when it matches. */
  function PatchCommand(snapshot: map<string, string>, t: Target): Option<Cmd>
  {
    if t.name !in snapshot then Some(RemoteAdd(t.name, t.url))
    else if snapshot[t.name] != t.url then Some(RemoteSetUrl(t.name, t.url))
    else None
  }

  /** One target's effect on the remotes, or `None` when its command fails. */
  function PatchOne(m: map<string, string>, snapshot: map<string, string>, t: Target, g: Oracle): Option<map<string, string>>
  {
    match PatchCommand(snapshot, t)
    case None => Some(m)
    case Some(c) => Step(m, c, g)
  }

  /** The remotes after trying a list of targets, and whether every command worked. */
  datatype Applied = Applied(remotes: map<string, string>, ok: bool)

  /** The targets in order, stopping at the first failing command and keeping
      what was done before it. */
  function PatchAll(m: map<string, string>, snapshot: map<string, string>, ts: seq<Target>, g: Oracle): Applied
    decreases |ts|
  {
    if |ts| == 0 then Applied(m, true)
    else
      var prev := PatchAll(m, snapshot, ts[..|ts| - 1], g);
      if !prev.ok then prev
      else match PatchOne(prev.remotes, snapshot, ts[|ts| - 1], g)
        case None => Applied(prev.remotes, false)
        case Some(next) => Applied(next, true)
  }

  /** The map a list of targets asks for; a later duplicate would win. */
  function TargetMap(ts: seq<Target>): map<string, string>
    decreases |ts|
  {
    if |ts| == 0 then map[] else TargetMap(ts[..|ts| - 1])[ts[|ts| - 1].name := ts[|ts| - 1].url]
  }

  function TargetNames(ts: seq<Target>): set<string>
  {
    set i | 0 <= i < |ts| :: ts[i].name
  }

  /** How `setup_git_remotes` of the patching variant ends. */
  function PatchSetupResult(isRepo: bool, remotes: map<string, string>, id: string, paths: seq<string>, g: Oracle): Verdict
  {
    if BackupSpec.ProvisionRaises(isRepo, g) then Raised
    else
      var m0 := BackupSpec.Start(isRepo, remotes);
      Returned(PatchAll(m0, Observe(m0, g), Targets(id, paths), g).ok)
  }

  /** The remotes the patching variant leaves, whether it succeeded or not. */
  function PatchedRemotes(isRepo: bool, remotes: map<string, string>, id: string, paths: seq<string>, g: Oracle): map<string, string>
  {
    var m0 := BackupSpec.Start(isRepo, remotes);
    PatchAll(m0, Observe(m0, g), Targets(id, paths), g).remotes
  }

  /** Nothing is ever removed, and a remote no target names keeps its URL,
      whether the run succeeded or stopped early. */
  lemma {:induction false} PatchAllKeepsOthers(m: map<string, string>, snapshot: map<string, string>, ts: seq<Target>, g: Oracle)
    ensures m.Keys <= PatchAll(m, snapshot, ts, g).remotes.Keys
    ensures forall n :: n in m && n !in TargetNames(ts) ==> PatchAll(m, snapshot, ts, g).remotes[n] == m[n]
    ensures PatchAll(m, snapshot, ts, g).remotes.Keys <= m.Keys + TargetNames(ts)
    decreases |ts|
  {
    if |ts| > 0 {
      var init := ts[..|ts| - 1];
      PatchAllKeepsOthers(m, snapshot, init, g);
      TargetNamesSnoc(ts);
    }
  }

  lemma TargetNamesSnoc(ts: seq<Target>)
    requires |ts| > 0
    ensures TargetNames(ts) == TargetNames(ts[..|ts| - 1]) + {ts[|ts| - 1].name}
  {
    var init := ts[..|ts| - 1];
    forall n | n in TargetNames(ts) ensures n in TargetNames(init) + {ts[|ts| - 1].name} {
      var i :| 0 <= i < |ts| && ts[i].name == n;
      if i < |ts| - 1 {
        assert init[i] == ts[i];
      }
    }
    forall n | n in TargetNames(init) ensures n in TargetNames(ts) {
      var i :| 0 <= i < |init| && init[i].name == n;
      assert ts[i] == init[i];
    }
  }

  /** When the snapshot agrees with the remotes on every target name, a
      successful run leaves exactly the old remotes overridden by the targets. */
  lemma {:induction false} PatchAllShape(m: map<string, string>, snapshot: map<string, string>, ts: seq<Target>, g: Oracle)
    requires forall i :: 0 <= i < |ts| ==> (ts[i].name in snapshot <==> ts[i].name in m)
    requires forall i :: 0 <= i < |ts| && ts[i].name in m ==> snapshot[ts[i].name] == m[ts[i].name]
    requires forall i, j :: 0 <= i < j < |ts| ==> ts[i].name != ts[j].name
    ensures PatchAll(m, snapshot, ts, g).ok ==> PatchAll(m, snapshot, ts, g).remotes == m + TargetMap(ts)
    decreases |ts|
  {
    if |ts| > 0 {
      var init := ts[..|ts| - 1];
      var t := ts[|ts| - 1];
      assert forall i :: 0 <= i < |init| ==> init[i] == ts[i];
      PatchAllShape(m, snapshot, init, g);
      var prev := PatchAll(m, snapshot, init, g);
      if prev.ok && PatchAll(m, snapshot, ts, g).ok {
        assert t.name !in TargetNames(init);
        PatchAllKeepsOthers(m, snapshot, init, g);
        assert t.name in prev.remotes <==> t.name in m;
        assert t.name in m ==> prev.remotes[t.name] == m[t.name];
        PatchOneAgreeing(prev.remotes, snapshot, t, g);
        UnionUpdate(m, TargetMap(init), t.name, t.url);
      }
    }
  }

  /** A target's command, judged against a snapshot that agrees with the
      remotes on its name, leaves the target's URL in place when it works. */
  lemma PatchOneAgreeing(m: map<string, string>, snapshot: map<string, string>, t: Target, g: Oracle)
    requires t.name in snapshot <==> t.name in m
    requires t.name in m ==> snapshot[t.name] == m[t.name]
    ensures PatchOne(m, snapshot, t, g).Some? ==> PatchOne(m, snapshot, t, g).value == m[t.name := t.url]
  {
    if t.name in m && snapshot[t.name] == t.url {
      assert m[t.name := t.url] == m;
    }
  }

  lemma UnionUpdate(m: map<string, string>, a: map<string, string>, k: string, v: string)
    ensures m + a[k := v] == (m + a)[k := v]
  {
  }

  /** A failed run stopped at one target whose command failed; everything before
      it was applied and nothing after it was tried. */
  lemma PatchAllStopsAtFirstFailure(m: map<string, string>, snapshot: map<string, string>, ts: seq<Target>, g: Oracle)
    ensures !PatchAll(m, snapshot, ts, g).ok ==>
      exists k :: 0 <= k < |ts|
        && PatchAll(m, snapshot, ts[..k], g).ok
        && PatchOne(PatchAll(m, snapshot, ts[..k], g).remotes, snapshot, ts[k], g).None?
        && PatchAll(m, snapshot, ts, g).remotes == PatchAll(m, snapshot, ts[..k], g).remotes
  {
    if !PatchAll(m, snapshot, ts, g).ok {
      var k := FirstFailure(m, snapshot, ts, g);
    }
  }

  /** The target whose command failed in a run that did not go through. */
  function FirstFailure(m: map<string, string>, snapshot: map<string, string>, ts: seq<Target>, g: Oracle): (k: nat)
    requires !PatchAll(m, snapshot, ts, g).ok
    ensures k < |ts|
    ensures PatchAll(m, snapshot, ts[..k], g).ok
    ensures PatchOne(PatchAll(m, snapshot, ts[..k], g).remotes, snapshot, ts[k], g).None?
    ensures PatchAll(m, snapshot, ts, g).remotes == PatchAll(m, snapshot, ts[..k], g).remotes
    decreases |ts|
  {
    var n := |ts| - 1;
    if !PatchAll(m, snapshot, ts[..n], g).ok then
      var k := FirstFailure(m, snapshot, ts[..n], g);
      assert ts[..n][..k] == ts[..k] && ts[..n][k] == ts[k];
      k
    else
      n
  }

  /** A failed prefix decides the whole run: nothing after it is tried. */
  lemma {:induction false} PatchAllAfterFailure(m: map<string, string>, snapshot: map<string, string>, ts: seq<Target>, k: nat, g: Oracle)
    requires k <= |ts| && !PatchAll(m, snapshot, ts[..k], g).ok
    ensures PatchAll(m, snapshot, ts, g) == PatchAll(m, snapshot, ts[..k], g)
    decreases |ts| - k
  {
    if k < |ts| {
      var n := |ts| - 1;
      assert ts[..n][..k] == ts[..k];
      PatchAllAfterFailure(m, snapshot, ts[..n], k, g);
    } else {
      assert ts[..k] == ts;
    }
  }

  /** The next target after a prefix that went through. */
  lemma PatchAllStep(m: map<string, string>, snapshot: map<string, string>, ts: seq<Target>, k: nat, g: Oracle)
    requires k < |ts| && PatchAll(m, snapshot, ts[..k], g).ok
    ensures PatchOne(PatchAll(m, snapshot, ts[..k], g).remotes, snapshot, ts[k], g).None? ==>
      PatchAll(m, snapshot, ts[..k + 1], g) == Applied(PatchAll(m, snapshot, ts[..k], g).remotes, false)
    ensures PatchOne(PatchAll(m, snapshot, ts[..k], g).remotes, snapshot, ts[k], g).Some? ==>
      PatchAll(m, snapshot, ts[..k + 1], g)
        == Applied(PatchOne(PatchAll(m, snapshot, ts[..k], g).remotes, snapshot, ts[k], g).value, true)
  {
    assert ts[..k + 1][..k] == ts[..k];
  }

  /** Targets whose observed URL already matches issue no command: the
      remotes stay as they are whatever git would answer. */
  lemma {:induction false} PatchAllNothingToDo(m: map<string, string>, snapshot: map<string, string>, ts: seq<Target>, g: Oracle)
    requires forall i :: 0 <= i < |ts| ==> ts[i].name in snapshot && snapshot[ts[i].name] == ts[i].url
    ensures PatchAll(m, snapshot, ts, g) == Applied(m, true)
    decreases |ts|
  {
    if |ts| > 0 {
      var init := ts[..|ts| - 1];
      assert forall i :: 0 <= i < |init| ==> init[i] == ts[i];
      PatchAllNothingToDo(m, snapshot, init, g);
    }
  }

  /** origin and the `backup<i>` are pairwise distinct target names. */
  lemma TargetNamesDistinct(id: string, paths: seq<string>)
    ensures forall i, j :: 0 <= i < j < |Targets(id, paths)| ==> Targets(id, paths)[i].name != Targets(id, paths)[j].name
  {
    var ts := Targets(id, paths);
    forall i, j | 0 <= i < j < |ts| ensures ts[i].name != ts[j].name {
      BackupNameFacts(j - 1);
      if i > 0 && ts[i].name == ts[j].name {
        BackupNameInjective(i - 1, j - 1);
      }
    }
  }

  /** The target names are origin and `backup<i>` for the listed indices. */
  lemma TargetNamesAre(id: string, paths: seq<string>, n: string)
    ensures n in TargetNames(Targets(id, paths)) <==> n == "origin" || exists i :: 0 <= i < |paths| && n == BackupName(i)
  {
    var ts := Targets(id, paths);
    if n == "origin" {
      assert ts[0].name == n;
    } else if exists i :: 0 <= i < |paths| && n == BackupName(i) {
      var i :| 0 <= i < |paths| && n == BackupName(i);
      assert ts[i + 1].name == n;
    }
  }

  /** The map the targets ask for: origin plus the canonical backups. */
  lemma {:induction false} TargetMapIs(id: string, paths: seq<string>)
    ensures TargetMap(Targets(id, paths)) == ExpectedBackups(paths)["origin" := OriginUrl(id)]
    decreases |paths|
  {
    if |paths| > 0 {
      var n := |paths| - 1;
      var ts := Targets(id, paths);
      assert ts[..|ts| - 1] == Targets(id, paths[..n]);
      TargetMapIs(id, paths[..n]);
      BackupNameFacts(n);
    }
  }

  /** On a mirror whose inspection sees every remote as it is, a successful
      patch leaves the old remotes with origin and each `backup<i>` set and
      every other remote, stale backups included, kept as it was. */
  lemma PatchSetupShape(isRepo: bool, remotes: map<string, string>, id: string, paths: seq<string>, g: Oracle)
    requires Faithful(BackupSpec.Start(isRepo, remotes), g)
    requires PatchSetupResult(isRepo, remotes, id, paths, g) == Returned(true)
    ensures PatchedRemotes(isRepo, remotes, id, paths, g)
      == BackupSpec.Start(isRepo, remotes)["origin" := OriginUrl(id)] + ExpectedBackups(paths)
  {
    var m0 := BackupSpec.Start(isRepo, remotes);
    var ts := Targets(id, paths);
    FaithfulObserve(m0, g);
    TargetNamesDistinct(id, paths);
    PatchAllShape(m0, Observe(m0, g), ts, g);
    TargetMapIs(id, paths);
    OriginIsNotBackup();
    ExpectedBackupsAreBackups(paths);
    UnionMovesKey(m0, ExpectedBackups(paths), "origin", OriginUrl(id));
  }

  lemma UnionMovesKey(m: map<string, string>, e: map<string, string>, k: string, v: string)
    requires k !in e
    ensures m + e[k := v] == m[k := v] + e
  {
  }

  /** Whatever the outcome, no remote is removed and a `backup<k>` beyond the
      path list keeps its URL: shortening the list leaves stale backups. */
  lemma PatchKeepsStaleBackups(isRepo: bool, remotes: map<string, string>, id: string, paths: seq<string>, k: nat, g: Oracle)
    ensures BackupSpec.Start(isRepo, remotes).Keys <= PatchedRemotes(isRepo, remotes, id, paths, g).Keys
    ensures k >= |paths| && BackupName(k) in BackupSpec.Start(isRepo, remotes) ==>
      PatchedRemotes(isRepo, remotes, id, paths, g)[BackupName(k)] == BackupSpec.Start(isRepo, remotes)[BackupName(k)]
  {
    var m0 := BackupSpec.Start(isRepo, remotes);
    var ts := Targets(id, paths);
    PatchAllKeepsOthers(m0, Observe(m0, g), ts, g);
    if k >= |paths| {
      StaleBackupIsNoTarget(id, paths, k);
    }
  }

  lemma StaleBackupIsNoTarget(id: string, paths: seq<string>, k: nat)
    requires k >= |paths|
    ensures BackupName(k) !in TargetNames(Targets(id, paths))
  {
    TargetNamesAre(id, paths, BackupName(k));
    BackupNameFacts(k);
    if exists i :: 0 <= i < |paths| && BackupName(k) == BackupName(i) {
      var i :| 0 <= i < |paths| && BackupName(k) == BackupName(i);
      BackupNameInjective(i, k);
    }
  }

  /** Remotes that already hold origin and every `backup<i>` at clean URLs,
      as an inspection that sees them reports, give the patch nothing to do. */
  lemma PatchNothingToDo(r: map<string, string>, id: string, paths: seq<string>, g: Oracle)
    requires NoTrailingSpace(id) && forall i :: 0 <= i < |paths| ==> NoTrailingSpace(paths[i])
    requires g.listOk && g.urlOk("origin") && forall i :: 0 <= i < |paths| ==> g.urlOk(BackupName(i))
    requires "origin" in r && r["origin"] == OriginUrl(id)
    requires forall i :: 0 <= i < |paths| ==> BackupName(i) in r && r[BackupName(i)] == BackupUrl(paths[i])
    ensures PatchAll(r, Observe(r, g), Targets(id, paths), g) == Applied(r, true)
  {
    var ts := Targets(id, paths);
    var s := Observe(r, g);
    forall i | 0 <= i < |ts| ensures ts[i].name in s && s[ts[i].name] == ts[i].url {
      if i == 0 {
        CleanAfterPrefix("https://git.overleaf.com/", id);
        BackupSpec.ObserveCleanEntry(r, "origin", g);
      } else {
        CleanAfterPrefix("ssh://", paths[i - 1]);
        BackupNameFacts(i - 1);
        BackupSpec.ObserveCleanEntry(r, BackupName(i - 1), g);
      }
    }
    PatchAllNothingToDo(r, s, ts, g);
  }

  /** Patching what a successful patch left issues no command at all: the
      second run succeeds and changes nothing whatever git would answer,
      provided the inspection sees origin and the backups. */
  lemma PatchIdempotent(isRepo: bool, remotes: map<string, string>, id: string, paths: seq<string>, g: Oracle, g2: Oracle)
    requires Faithful(BackupSpec.Start(isRepo, remotes), g)
    requires PatchSetupResult(isRepo, remotes, id, paths, g) == Returned(true)
    requires NoTrailingSpace(id) && forall i :: 0 <= i < |paths| ==> NoTrailingSpace(paths[i])
    requires g2.listOk && g2.urlOk("origin") && forall i :: 0 <= i < |paths| ==> g2.urlOk(BackupName(i))
    ensures var r := PatchedRemotes(isRepo, remotes, id, paths, g);
      PatchSetupResult(true, r, id, paths, g2) == Returned(true) && PatchedRemotes(true, r, id, paths, g2) == r
  {
    var r := PatchedRemotes(isRepo, remotes, id, paths, g);
    PatchSetupShape(isRepo, remotes, id, paths, g);
    OriginIsNotBackup();
    ExpectedBackupsAreBackups(paths);
    assert "origin" in r && r["origin"] == OriginUrl(id);
    forall i | 0 <= i < |paths| ensures BackupName(i) in r && r[BackupName(i)] == BackupUrl(paths[i]) {
      ExpectedBackupsHas(paths, i);
    }
    PatchNothingToDo(r, id, paths, g2);
    assert BackupSpec.Start(true, r) == r;
  }

  // ---------------------------------------------------------------------------
  // Master-only synchronisation (sync_repositories)
  // ---------------------------------------------------------------------------

  /** `git push <remote> master` for each remote in order; a failed push is
      reported and the loop goes on. */
  function MasterPushes(remotes: seq<string>): (t: seq<Cmd>)
    ensures |t| == |remotes|
    ensures forall i :: 0 <= i < |remotes| ==> t[i] == PushBranch(remotes[i], "master")
    decreases |remotes|
  {
    if |remotes| == 0 then [] else [PushBranch(remotes[0], "master")] + MasterPushes(remotes[1..])
  }

  /** The variant's sync on a mirror whose inspection after the pull gives `current`. */
  function MasterSyncResult(isRepo: bool, current: map<string, string>, g: Oracle): (r: BackupSpec.SyncRun)
    ensures r.success <==> isRepo && g.ok(Pull("master"))
  {
    if !isRepo then BackupSpec.SyncRun(false, [])
    else if !g.ok(Pull("master")) then BackupSpec.SyncRun(false, [Pull("master")])
    else BackupSpec.SyncRun(true, [Pull("master")] + MasterPushes(SortedNames(BackupRemotes(current))))
  }

  /** The trace holds only the master pull and master pushes; after a
      successful pull every reported backup remote is pushed to exactly once,
      in sorted order, whether or not the pushes work. */
  lemma MasterSyncFacts(isRepo: bool, current: map<string, string>, g: Oracle)
    ensures var r := MasterSyncResult(isRepo, current, g);
      forall c :: c in r.trace ==> c == Pull("master") || (c.PushBranch? && c.branch == "master")
    ensures var r := MasterSyncResult(isRepo, current, g);
      r.success ==> r.trace[0] == Pull("master") && BackupSpec.PushTargets(r.trace) == SortedNames(BackupRemotes(current))
  {
    if isRepo && g.ok(Pull("master")) {
      MasterTraceFacts(SortedNames(BackupRemotes(current)));
    }
  }

  /** The pull followed by master pushes to the given remotes: nothing else,
      and the pushes go to those remotes in order. */
  lemma MasterTraceFacts(backups: seq<string>)
    ensures forall c :: c in [Pull("master")] + MasterPushes(backups) ==> c == Pull("master") || (c.PushBranch? && c.branch == "master")
    ensures BackupSpec.PushTargets([Pull("master")] + MasterPushes(backups)) == backups
  {
    var pushes := MasterPushes(backups);
    MasterPushTargets(backups);
    BackupSpec.PushTargetsAppend([Pull("master")], pushes);
    assert BackupSpec.PushTargets([Pull("master")]) == [] by {
      assert [Pull("master")][1..] == [];
    }
    forall c | c in [Pull("master")] + pushes ensures c == Pull("master") || (c.PushBranch? && c.branch == "master") {
      if c != Pull("master") {
        assert c in pushes;
      }
    }
  }

  lemma {:induction false} MasterPushTargets(remotes: seq<string>)
    ensures BackupSpec.PushTargets(MasterPushes(remotes)) == remotes
    decreases |remotes|
  {
    if |remotes| > 0 {
      var t := MasterPushes(remotes);
      assert t[1..] == MasterPushes(remotes[1..]);
      MasterPushTargets(remotes[1..]);
      HeadAndTail(remotes);
    }
  }

  /** Where the two syncs part ways: an Overleaf project whose only branch is
      `main` syncs through `backup.py`'s fallback but fails here. */
  lemma MainOnlyProjectFailsHere(current: map<string, string>, g: Oracle)
    requires g.ok(RemoteUpdate) && g.ok(Pull("main")) && !g.ok(Pull("master"))
    ensures BackupSpec.SyncResult(true, current, g).success
    ensures !MasterSyncResult(true, current, g).success
  {
  }

  // ---------------------------------------------------------------------------
  // Orchestration (backup_overleaf_project)
  // ---------------------------------------------------------------------------

  /** How the variant's workflow ended, which stages it reached, and the
      mirror it leaves when it returns. */
  datatype PatchRun = PatchRun(verdict: Verdict, synced: bool, cleanupAttempted: bool)

  function PatchBackupResult(isRepo: bool, remotes: map<string, string>, id: string, paths: seq<string>, clean: bool, g: Oracle): PatchRun
  {
    var setup := PatchSetupResult(isRepo, remotes, id, paths, g);
    if setup != Returned(true) then PatchRun(setup, false, false)
    else
      var current := Observe(PatchedRemotes(isRepo, remotes, id, paths, g), g);
      if !MasterSyncResult(true, current, g).success then PatchRun(Returned(false), true, false)
      else PatchRun(Returned(true), true, clean)
  }

  /** Setup gates sync and sync gates cleanup; the run succeeds exactly when
      setup and the master pull do, so a failed cleanup is only a warning and
      an exception escapes only from provisioning. */
  lemma PatchBackupGating(isRepo: bool, remotes: map<string, string>, id: string, paths: seq<string>, clean: bool, g: Oracle)
    ensures var p := PatchBackupResult(isRepo, remotes, id, paths, clean, g);
      && (p.synced <==> PatchSetupResult(isRepo, remotes, id, paths, g) == Returned(true))
      && (p.cleanupAttempted <==> p.synced && g.ok(Pull("master")) && clean)
      && (p.verdict == Returned(true) <==> p.synced && g.ok(Pull("master")))
      && (p.verdict == Raised <==> BackupSpec.ProvisionRaises(isRepo, g))
  {
  }

  /** Where the two orchestrators part ways: a cleanup that fails after a
      good sync raises in `backup.py` but still reports success here. */
  lemma CleanupFailureOnlyWarns(isRepo: bool, remotes: map<string, string>, id: string, paths: seq<string>, g: Oracle)
    requires PatchSetupResult(isRepo, remotes, id, paths, g) == Returned(true)
    requires g.ok(Pull("master")) && !g.ok(RemoveCache)
    ensures PatchBackupResult(isRepo, remotes, id, paths, true, g).verdict == Returned(true)
    ensures BackupSpec.BackupResult(isRepo, remotes, id, paths, true, g).verdict != Returned(true)
  {
  }
}
