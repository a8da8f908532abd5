/**
 * The git tool as the backup engine sees it. A mirror is a flag saying
 * whether its `.git` exists and the map from remote name to URL kept in its
 * configuration. Every command's outcome comes from an `Oracle`; on top of
 * that, `git remote add` refuses a name that exists and `set-url`/`remove`
 * refuse one that does not, as git does.
 */
module Git {
  import opened Wrappers
  import opened Text

  /** The git (and shell) commands the engine issues. */
  datatype Cmd =
    | Init
    | ConfigCredentialHelper
    | RemoteAdd(name: string, url: string)
    | RemoteSetUrl(name: string, url: string)
    | RemoteRemove(name: string)
    | RemoteUpdate
    | Pull(branch: string)
    | FetchTags
    | RevParseHead
    | PushBranch(remote: string, branch: string)
    | PushTags(remote: string)
    | RemoveCache

  /** What the environment answers: whether `git remote` lists, whether
      `git remote get-url n` answers for `n`, whether each other command
      exits with status 0, and what `git rev-parse --abbrev-ref HEAD` prints. */
  datatype Oracle = Oracle(listOk: bool, urlOk: string -> bool, ok: Cmd -> bool, head: Option<string>)

  /** How a Python call ends: it returns a boolean or an exception escapes. */
  datatype Verdict = Returned(success: bool) | Raised

  /** The Overleaf Git URL of a project: its id after `https://git.overleaf.com/`. */
  function OriginUrl(id: string): string
  {
    "https://git.overleaf.com/" + id
  }

  /** The name of the i-th backup remote: `backup` followed by `i` in decimal. */
  function BackupName(i: nat): string
  {
    "backup" + NatToString(i)
  }

  /** The URL of a backup remote: its GitLab path after `ssh://`. */
  function BackupUrl(path: string): string
  {
    "ssh://" + path
  }

  /** Whether a remote name begins with `backup` (any suffix, digits or not). */
  predicate IsBackupRemote(name: string)
  {
    HasPrefix("backup", name)
  }

  lemma BackupNameFacts(i: nat)
    ensures IsBackupRemote(BackupName(i))
    ensures BackupName(i) != "origin" && BackupName(i) != ""
  {
    assert BackupName(i)[..6] == "backup";
    assert BackupName(i)[0] == 'b';
  }

  lemma {:induction false} BackupNameInjective(i: nat, j: nat)
    requires BackupName(i) == BackupName(j)
    ensures i == j
  {
    assert NatToString(i) == BackupName(i)[6..] == BackupName(j)[6..] == NatToString(j);
    NatToStringInjective(i, j);
  }

  lemma OriginIsNotBackup()
    ensures !IsBackupRemote("origin")
  {
    assert "origin"[..6][0] != "backup"[0];
  }

  /** The canonical backup remotes for a list of destination paths:
      `backup<i>` points at `ssh://<paths[i]>` and nothing else is there. */
  function ExpectedBackups(paths: seq<string>): map<string, string>
    decreases |paths|
  {
    if |paths| == 0 then map[]
    else
      var n := |paths| - 1;
      ExpectedBackups(paths[..n])[BackupName(n) := BackupUrl(paths[n])]
  }

  /** `backup<i>` is there for each index, pointing at `ssh://<paths[i]>`. */
  lemma {:induction false} ExpectedBackupsHas(paths: seq<string>, i: nat)
    requires i < |paths|
    ensures BackupName(i) in ExpectedBackups(paths)
    ensures ExpectedBackups(paths)[BackupName(i)] == BackupUrl(paths[i])
    decreases |paths|
  {
    var n := |paths| - 1;
    if i < n {
      ExpectedBackupsHas(paths[..n], i);
      if BackupName(i) == BackupName(n) { BackupNameInjective(i, n); }
      assert paths[..n][i] == paths[i];
    }
  }

  /** Nothing but `backup0..backup(n-1)` is there. */
  lemma {:induction false} ExpectedBackupsOnly(paths: seq<string>, k: string)
    requires k in ExpectedBackups(paths)
    ensures exists i :: 0 <= i < |paths| && k == BackupName(i)
    decreases |paths|
  {
    var n := |paths| - 1;
    if k != BackupName(n) {
      ExpectedBackupsOnly(paths[..n], k);
    }
  }

  /** Growing the path list by one adds exactly the next `backup<i>`. */
  lemma ExpectedBackupsGrow(paths: seq<string>, i: nat)
    requires i < |paths|
    ensures ExpectedBackups(paths[..i + 1]) == ExpectedBackups(paths[..i])[BackupName(i) := BackupUrl(paths[i])]
  {
    assert paths[..i + 1][..i] == paths[..i];
  }

  /** The next index's name is not yet taken, so adding it never collides. */
  lemma NextBackupNameIsFresh(paths: seq<string>)
    ensures BackupName(|paths|) !in ExpectedBackups(paths)
  {
    if BackupName(|paths|) in ExpectedBackups(paths) {
      ExpectedBackupsOnly(paths, BackupName(|paths|));
      var i :| 0 <= i < |paths| && BackupName(|paths|) == BackupName(i);
      BackupNameInjective(i, |paths|);
    }
  }

  /** Every canonical backup name is backup-prefixed and differs from origin. */
  lemma ExpectedBackupsAreBackups(paths: seq<string>)
    ensures forall k :: k in ExpectedBackups(paths) ==> IsBackupRemote(k) && k != "origin" && k != ""
  {
    forall k | k in ExpectedBackups(paths) ensures IsBackupRemote(k) && k != "origin" && k != "" {
      ExpectedBackupsOnly(paths, k);
      var i :| 0 <= i < |paths| && k == BackupName(i);
      BackupNameFacts(i);
    }
  }

  /** The effect of one remote-configuration command on the remote map, or
      `None` when git exits with an error. Other commands leave the map alone. */
  function Step(remotes: map<string, string>, c: Cmd, g: Oracle): Option<map<string, string>>
  {
    if !g.ok(c) then None
    else match c
      case RemoteAdd(n, u) => if n in remotes then None else Some(remotes[n := u])
      case RemoteSetUrl(n, u) => if n in remotes then Some(remotes[n := u]) else None
      case RemoteRemove(n) => if n in remotes then Some(remotes - {n}) else None
      case _ => Some(remotes)
  }

  /** What an inspection of the mirror yields: nothing when listing fails;
      otherwise each listed name whose `get-url` answers with a non-blank URL,
      mapped to that URL stripped of surrounding whitespace. */
  function Observe(remotes: map<string, string>, g: Oracle): map<string, string>
  {
    if !g.listOk then map[]
    else map n | n in remotes && n != "" && g.urlOk(n) && Strip(remotes[n]) != "" :: Strip(remotes[n])
  }

  /** An inspection that sees every remote as it is. */
  predicate Faithful(remotes: map<string, string>, g: Oracle)
  {
    && g.listOk
    && forall n :: n in remotes ==> n != "" && g.urlOk(n) && Clean(remotes[n]) && remotes[n] != ""
  }

  lemma FaithfulObserve(remotes: map<string, string>, g: Oracle)
    requires Faithful(remotes, g)
    ensures Observe(remotes, g) == remotes
  {
    forall n | n in remotes ensures Strip(remotes[n]) == remotes[n] {
      StripIsClean(remotes[n]);
    }
  }

  /** The backup-prefixed names of a remote map. */
  function BackupRemotes(remotes: map<string, string>): set<string>
  {
    set n | n in remotes && IsBackupRemote(n)
  }

  /** A local mirror of one Overleaf project: whether `<cache>/overleaf_<id>/.git`
      exists, and the remotes configured in it. */
  class Mirror {
    var isRepo: bool
    var remotes: map<string, string>

    constructor (isRepo: bool, remotes: map<string, string>)
      ensures this.isRepo == isRepo && this.remotes == remotes
    {
      this.isRepo := isRepo;
      this.remotes := remotes;
    }

    /** `git remote add|set-url|remove`, applied only when git succeeds. */
    method Run(c: Cmd, g: Oracle) returns (ok: bool)
      modifies this
      ensures ok == Step(old(remotes), c, g).Some?
      ensures remotes == if ok then Step(old(remotes), c, g).value else old(remotes)
      ensures isRepo == old(isRepo)
    {
      var next := Step(remotes, c, g);
      ok := next.Some?;
      if ok {
        remotes := next.value;
      }
    }

    /** `git init` in a directory without `.git`: a repository with no remotes. */
    method GitInit(g: Oracle) returns (ok: bool)
      modifies this
      ensures ok == g.ok(Init)
      ensures ok ==> isRepo && remotes == map[]
      ensures !ok ==> isRepo == old(isRepo) && remotes == old(remotes)
    {
      ok := g.ok(Init);
      if ok {
        isRepo, remotes := true, map[];
      }
    }

    /** `rm -rf <cache>/overleaf_<id>`: the mirror is gone. */
    method RemoveDirectory(g: Oracle) returns (ok: bool)
      modifies this
      ensures ok == g.ok(RemoveCache)
      ensures ok ==> !isRepo && remotes == map[]
      ensures !ok ==> isRepo == old(isRepo) && remotes == old(remotes)
    {
      ok := g.ok(RemoveCache);
      if ok {
        isRepo, remotes := false, map[];
      }
    }
  }
}
