# overleaf2gitlab backup engine in Dafny

overleaf2gitlab keeps a local Git mirror of each Overleaf project. For each
mirror it does three things:

- it reconciles the mirror's remotes: `origin` points at the project's
  Overleaf Git URL, and `backup0`, `backup1`, ... point at `ssh://<path>`
  for each configured GitLab path;
- it checks that configuration;
- it pulls from Overleaf and pushes to every backup remote.

Around that sit the project mapping in the configuration file's `[repos]`
section, its validator, and the commands that back up one project or all of
them.

This project models that core and proves what it promises.

## How the model is built

- **Git is abstract.** A mirror is a `Git.Mirror` object with two fields:
  - `isRepo`: whether `<cache>/overleaf_<id>/.git` exists;
  - `remotes`: a map from remote name to URL.
- **Command outcomes are an oracle.** A `Git.Oracle` decides whether each
  command exits with status 0, whether `git remote` lists, whether
  `git remote get-url <n>` answers, and what HEAD resolves to.
  - `git remote add` refuses a name that exists; `set-url` and `remove`
    refuse one that does not, as git does.
- **Exceptions are explicit.** A Python call that can return a boolean or
  let an exception escape ends in a `Git.Verdict`: `Returned(b)` or `Raised`.

The workflow of `src/overleaf2gitlab/backup.py` appears twice:

- as methods on the mirror with loops (module `Backup`);
- as functions of the state before the call (module `BackupSpec`).

Each method's postcondition ties its result and the mirror's new state to
those functions. The properties are lemmas about the functions.

`src/overleaf2gitlab/backup/operations.py` is a second, divergent variant,
modelled in the same two layers:

- `Operations` holds the methods;
- `OperationsSpec` holds the functions.

That variant patches remotes instead of removing and re-adding them, has no
validation step, and pulls and pushes `master` only. Lemmas show where the
two variants differ.

The remote inspector (`get_all_git_remotes` in `backup/git.py` and its copy
in `backup.py`) is modelled at the level of the text git prints, in module
`Inspector`. `Inspector.FaithfulListing` proves that both copies compute
`Git.Observe`. The rest of the model uses `Git.Observe` as "what the
inspection reports".

The remaining modules are:

- `Cli`: `main.py`'s path parsing and its per-project and bulk backup;
- `Config`: `config.py`;
- `ConfigValidation`: `config/validation.py`;
- `Ini`: the parsed configuration, with `section[key]` lookup and update;
- `Text` and `Ordering`: the Python string builtins the code relies on
  (`strip`, `split`, `join`, `startswith`, `sorted`, and the string order).

### What the code does at its edges

- **Some exceptions escape.** Three commands run with `check=True` outside
  any `try`:
  - `git init` and the credential-helper `git config`, before the `try` in
    `setup_git_remotes`;
  - `rm -rf` in `backup.py`'s `backup_overleaf_project`.
  Their failure raises, nothing in `backup_all_projects` catches it, and the
  bulk run ends before the next project. This is `Raised` in the model, and
  `Cli.BulkAborts` states it.
- **Backup remotes match by prefix.** The removal loop and the push loop act
  on every remote whose name starts with `backup`, not only on `backup<i>`
  for a configured index.
- **`git remote update` is fatal.** It runs inside the outer `try` of
  `sync_repositories`; when it fails, sync returns False before any pull,
  as it does when both pulls fail.

## Model

| member | source | states |
|---|---|---|
| Git.BackupNameInjective | src/overleaf2gitlab/backup.py:189-190 | distinct indices give distinct `backup<i>` names, so the add loop never adds a name twice |
| Git.ExpectedBackupsHas | src/overleaf2gitlab/backup.py:122-126 | the expected map holds `backup<i>` at `ssh://<paths[i]>` for every index |
| Git.ExpectedBackupsOnly | src/overleaf2gitlab/backup.py:122-126 | the expected map holds nothing but `backup0..backup(n-1)` |
| Git.NextBackupNameIsFresh | src/overleaf2gitlab/backup.py:189-195 | the next index's name is not yet among the added ones |
| Git.ExpectedBackupsAreBackups | src/overleaf2gitlab/backup.py:141-142 | every expected name is backup-prefixed, non-empty and not `origin` |
| Git.FaithfulObserve | src/overleaf2gitlab/backup.py:61-87 | an inspection that can list and look up every remote, with clean non-empty URLs, reports exactly the remote map |
| Git.Mirror.Run | src/overleaf2gitlab/backup.py:168-195 | a remote command changes the map as git does (add only a new name, set-url and remove only an existing one) and nothing when it fails |
| Git.Mirror.GitInit | src/overleaf2gitlab/backup.py:31 | `git init` gives a repository without remotes, or changes nothing when it fails |
| Git.Mirror.RemoveDirectory | src/overleaf2gitlab/backup.py:337-340 | `rm -rf` of the cache leaves no repository, or changes nothing when it fails |
| Inspector.RemoteUrl | src/overleaf2gitlab/backup/git.py:11-21 | the lookup yields `None` exactly when the command fails, and otherwise a stripped URL |
| Inspector.CollectEntries | src/overleaf2gitlab/backup/git.py:36-42 | a name is kept iff it is listed (and, in `backup.py`, non-blank) and its lookup is truthy; it maps to exactly that URL |
| Inspector.InspectedFacts | src/overleaf2gitlab/backup/git.py:28-44 | a failed listing gives `{}`; every key is a listed name; every URL is non-empty and stripped |
| Inspector.NoRemotesListed | src/overleaf2gitlab/backup.py:75-80 | a repository without remotes prints a blank line, which both copies drop, giving `{}` |
| Inspector.VariantsAgree | src/overleaf2gitlab/backup.py:79-83 | the `backup.py` copy (skipping blank names) and the `git.py` copy agree unless `get-url ""` answers |
| Inspector.UrlRoundTrip | src/overleaf2gitlab/backup/git.py:11-19 | the URL git echoes with its newline comes back unchanged when it has no surrounding space |
| Inspector.ListingSplits | src/overleaf2gitlab/backup/git.py:35 | stripping and splitting what `git remote` prints gives back the names, and `[""]` for none |
| Inspector.MirrorLookupEntry | src/overleaf2gitlab/backup/git.py:39-41 | a mirror's lookup is truthy exactly where the observed map has an entry, with the same URL |
| Inspector.FaithfulListing | src/overleaf2gitlab/backup/git.py:23-44 | given a listing of the mirror's remotes, both copies of the inspector compute the observed remote map |
| Inspector.CollectIsObserve | src/overleaf2gitlab/backup/git.py:38-42 | collecting over names that list the mirror's remotes (plus blank lines) gives the observed map |
| Inspector.CollectRemotes | src/overleaf2gitlab/backup/git.py:38-42 | the loop builds the map `Collect` describes |
| Inspector.GetAllGitRemotes | src/overleaf2gitlab/backup/git.py:23-44 | the inspector returns `{}` on a failed listing and otherwise the collected map |
| Backup.GetAllGitRemotes | src/overleaf2gitlab/backup.py:61-87 | the loop over the mirror's remotes yields the observed map |
| Backup.MkCacheOverleafGitDir | src/overleaf2gitlab/backup.py:20-41 | a mirror without `.git` gets `git init` and the credential helper, and either failing raises; an existing repository is untouched; after a raise the mirror is an empty repository if `git init` worked and unchanged if it did not |
| Backup.CheckRemotes | src/overleaf2gitlab/backup.py:107-147 | the checks on the inspected remotes (origin, then each `backup<i>` in order, then the warning) give the `Diagnose` verdict |
| Backup.CheckCacheOverleafGitConfigValid | src/overleaf2gitlab/backup.py:89-147 | the validator returns True iff the mirror is a repository whose inspected remotes are canonical, and reports the first problem |
| Backup.SetOrigin | src/overleaf2gitlab/backup.py:164-177 | `set-url` if the inspection lists origin, else `add`; success leaves origin at the Overleaf URL and failure changes nothing |
| Backup.RemoveBackupPrefixed | src/overleaf2gitlab/backup.py:181-187 | it succeeds iff the removal of every listed backup-prefixed name works, and then exactly those names are gone; however it ends, only such names are removed, each by a removal that worked, and no URL changes; after a failure a name whose removal failed is still there |
| Backup.RemoveStaleBackups | src/overleaf2gitlab/backup.py:179-187 | the second inspection and the removal of each backup-prefixed remote it reports: success leaves `Pruned`; a failure leaves `PartlyPruned`, where some reported backup remotes are gone, one whose removal failed is still there and nothing else changed |
| Backup.AddBackups | src/overleaf2gitlab/backup.py:189-195 | `backup<i>` is added at `ssh://<paths[i]>` in list order; success leaves the old map plus exactly the expected backups; a failure at index `k` leaves the old map plus `backup0..backup(k-1)`, the add of `backup<k>` having been refused |
| Backup.SetupGitRemotes | src/overleaf2gitlab/backup.py:149-202 | setup ends as `SetupResult` says; with no rollback, it leaves the mirror `SetupLeaves` describes for each way it can end (provisioning raised, the origin step, a removal or an add failed, success); on success the remotes are `Reconciled` |
| Backup.PullOrigin | src/overleaf2gitlab/backup.py:230-246 | pulls `main` then `master`, stopping at the first success; the attempts are as `PullTrace` says |
| Backup.PushToBackups | src/overleaf2gitlab/backup.py:276-297 | each remote in order gets a branch push, and a tag push only after its branch push worked; failures go on to the next remote |
| Backup.SyncRepositories | src/overleaf2gitlab/backup.py:204-304 | sync's result and its command sequence are `SyncResult` of the observed remotes |
| Backup.BackupOverleafProject | src/overleaf2gitlab/backup.py:306-341 | the verdict is `BackupResult`'s; when setup did not return True the mirror is as `SetupLeaves` says; after a successful setup it stays `Reconciled`, whatever validation and sync do, unless a cleanup that worked removed it |
| BackupSpec.FailedSetupKeepsOthers | src/overleaf2gitlab/backup.py:149-202 | a setup that returned False rolled nothing back and damaged nothing: if the origin step failed nothing changed; otherwise origin is at the Overleaf URL, every other non-backup remote is as it was, and every backup-prefixed remote left is an old one, untouched, or an expected `backup<i>` at its URL |
| BackupSpec.FailedRemovalKeepsOthers | src/overleaf2gitlab/backup.py:179-187 | a removal loop that stopped part-way leaves origin at the Overleaf URL and every remote it kept untouched, having removed only backup-prefixed ones |
| BackupSpec.FailedAddKeepsOthers | src/overleaf2gitlab/backup.py:189-195 | an add loop that stopped at `backup<k>` leaves the pruned remotes plus expected backups only |
| BackupSpec.ExpectedBackupsPrefix | src/overleaf2gitlab/backup.py:189-195 | the backups added for the first `k` paths are expected backups of the whole list, at the same URLs |
| BackupSpec.OriginStepSetsOrigin | src/overleaf2gitlab/backup.py:168-177 | whichever origin command runs, its success leaves origin at `https://git.overleaf.com/<id>` |
| BackupSpec.SetUrlIssuedEvenWhenEqual | src/overleaf2gitlab/backup.py:168-172 | `set-url` is issued even when origin already holds the right URL, so its failure fails setup |
| BackupSpec.ReconcileShape | src/overleaf2gitlab/backup.py:164-195 | after reconciliation origin is at the Overleaf URL; `backup<i>` is at `ssh://<paths[i]>`; the only backup-prefixed remotes are the expected ones (only old ones the inspection could not see can survive); every other remote is unchanged |
| BackupSpec.ReconcileIdempotent | src/overleaf2gitlab/backup.py:163-198 | reconciling again what a successful reconcile left gives the same map |
| BackupSpec.ReconcileAfterReorder | src/overleaf2gitlab/backup.py:179-195 | after reconciling with `paths` and then with `next` (any permutation, shorter or longer list), exactly `backup<i>` at `ssh://<next[i]>` remain; no stale index survives |
| BackupSpec.UrlNeverBlank | src/overleaf2gitlab/backup.py:80-83 | a backup URL `ssh://<path>` never strips to empty, so the inspector always keeps it |
| BackupSpec.CheckBackupsAllOk | src/overleaf2gitlab/backup.py:129-138 | the backups check ends valid iff every remaining `backup<i>` is in place, and then it reports the unexpected names |
| BackupSpec.CheckBackupsValid | src/overleaf2gitlab/backup.py:129-138 | the same, with the expected name and URL spelled out per index |
| BackupSpec.DiagnoseValidIff | src/overleaf2gitlab/backup.py:101-147 | the validator says valid iff the mirror is a repository with origin and every `backup<i>` at the expected URLs; extra names only land in the warning |
| BackupSpec.CheckBackupsFirstProblem | src/overleaf2gitlab/backup.py:128-138 | a backup failure names the first index, in list order, whose remote is missing or differs, and every earlier one is fine |
| BackupSpec.FirstBad | src/overleaf2gitlab/backup.py:129-138 | where the backups check stops: a bad index with every earlier one fine |
| BackupSpec.ExtraRemotesOnlyWarn | src/overleaf2gitlab/backup.py:140-147 | adding remotes outside origin and the expected backups never changes the verdict; they appear in the warning |
| BackupSpec.CanonicalAfterObserve | src/overleaf2gitlab/backup.py:107-138 | remotes holding origin and every `backup<i>` at clean URLs inspect as canonical |
| BackupSpec.ReconcileThenValidate | src/overleaf2gitlab/backup.py:149-198 | a successful reconcile followed by an inspection that sees origin and the backups always validates (id and paths without trailing whitespace) |
| BackupSpec.SyncResult | src/overleaf2gitlab/backup.py:204-304 | sync succeeds iff the mirror is a repository, `git remote update` works and one of the two pulls works, whatever the pushes do |
| BackupSpec.SyncAfterPull | src/overleaf2gitlab/backup.py:248-297 | after a successful pull: with no backup remote, only the tag fetch follows and the result is True; otherwise the HEAD lookup and the fan-out over the sorted names follow |
| BackupSpec.FanOutTargets | src/overleaf2gitlab/backup.py:277-292 | the fan-out pushes to each remote once, in the given order |
| BackupSpec.FanOutHas | src/overleaf2gitlab/backup.py:277-297 | the fan-out issues the branch push to each remote, and the tag push exactly to those that accepted the branch |
| BackupSpec.FanOutFacts | src/overleaf2gitlab/backup.py:277-297 | the same, for all remotes at once; only the one branch is pushed |
| BackupSpec.PushPhaseFacts | src/overleaf2gitlab/backup.py:248-297 | after the pull only a fetch, the HEAD lookup and pushes of the one branch are issued, to the given remotes in order |
| BackupSpec.AfterPullFacts | src/overleaf2gitlab/backup.py:248-297 | the pushes after the pull go to the backup-prefixed remotes in sorted order, and tags only where the branch push worked |
| BackupSpec.PullFallback | src/overleaf2gitlab/backup.py:218-246 | a failing remote update ends sync before any pull; `main` is tried first and `master` only after it fails; when both fail nothing is fetched or pushed |
| BackupSpec.FanOutAfterPull | src/overleaf2gitlab/backup.py:248-300 | after a successful pull: the tag fetch is attempted and its failure is harmless; every backup remote is pushed in sorted order; a failed branch push skips only that remote's tags; the result is True |
| BackupSpec.OneBranchPushed | src/overleaf2gitlab/backup.py:267-284 | every branch push names the same branch: HEAD's, or `main` when rev-parse fails |
| BackupSpec.Backup10BeforeBackup2 | src/overleaf2gitlab/backup.py:277 | sorting is by string order, so `backup10` is pushed before `backup2` |
| BackupSpec.BackupGating | src/overleaf2gitlab/backup.py:320-341 | validation runs only after a successful setup and sync only after a valid check; cleanup runs only after a successful sync when asked; success needs every stage; an exception escapes only from provisioning or cleanup |
| BackupSpec.HealthySetup | src/overleaf2gitlab/backup.py:149-198 | with its git commands working and a faithful inspection, setup returns True from any starting remotes |
| BackupSpec.SetupSucceedsWhen | src/overleaf2gitlab/backup.py:159-198 | setup returns True once provisioning, the origin step, the removals and the adds work |
| BackupSpec.BackupSucceedsWhen | src/overleaf2gitlab/backup.py:320-341 | the workflow returns True once setup, validation, the pull and (if asked) cleanup work |
| BackupSpec.HealthyRunSucceeds | src/overleaf2gitlab/backup.py:306-341 | with healthy commands and a faithful inspection, the whole workflow succeeds whatever remotes the mirror had, even if pushes fail |
| BackupSpec.TwoPathsExpected | src/overleaf2gitlab/backup.py:122-126 | two paths give exactly `backup0` and `backup1` at their `ssh://` URLs |
| BackupSpec.FreshMirrorRemotes | src/overleaf2gitlab/backup.py:149-198 | a fresh mirror of `P1` with two GitLab paths ends with exactly origin, `backup0` and `backup1` at the expected URLs |
| BackupSpec.FreshMirrorScenario | src/overleaf2gitlab/backup.py:306-341 | that fresh mirror's backup succeeds when setup's commands, the update and the `main` pull work |
| OperationsSpec.Targets | src/overleaf2gitlab/backup/operations.py:40-55 | the targets are origin at the Overleaf URL, then `backup<i>` at `ssh://<paths[i]>` in list order |
| OperationsSpec.PatchAllKeepsOthers | src/overleaf2gitlab/backup/operations.py:39-65 | the patcher never removes a remote; a remote no target names keeps its URL; no name beyond the targets appears, even after a failure |
| OperationsSpec.PatchAllShape | src/overleaf2gitlab/backup/operations.py:43-63 | with a snapshot that agrees with the remotes, a successful patch leaves the old remotes overridden by the targets |
| OperationsSpec.PatchOneAgreeing | src/overleaf2gitlab/backup/operations.py:57-63 | for one target: add if absent, set-url if different, nothing if equal; on success the target's URL is in place |
| OperationsSpec.PatchAllStopsAtFirstFailure | src/overleaf2gitlab/backup/operations.py:39-69 | a failed patch stopped at one failing command; every earlier change stays applied (no rollback) and nothing after it ran |
| OperationsSpec.FirstFailure | src/overleaf2gitlab/backup/operations.py:39-69 | the index of the target whose command failed |
| OperationsSpec.PatchAllAfterFailure | src/overleaf2gitlab/backup/operations.py:67-69 | once a command failed, later targets change nothing |
| OperationsSpec.PatchAllNothingToDo | src/overleaf2gitlab/backup/operations.py:44-61 | targets whose observed URL already matches issue no command, so the remotes stay as they are |
| OperationsSpec.TargetNamesDistinct | src/overleaf2gitlab/backup/operations.py:40-55 | origin and the `backup<i>` names are pairwise distinct |
| OperationsSpec.TargetNamesAre | src/overleaf2gitlab/backup/operations.py:40-55 | the target names are exactly origin and `backup<i>` for the listed indices |
| OperationsSpec.TargetMapIs | src/overleaf2gitlab/backup/operations.py:40-55 | the targets ask for origin plus the canonical backups |
| OperationsSpec.PatchSetupShape | src/overleaf2gitlab/backup/operations.py:31-65 | on a faithful inspection, a successful patch leaves the old remotes with origin and every `backup<i>` set; stale backups survive |
| OperationsSpec.PatchKeepsStaleBackups | src/overleaf2gitlab/backup/operations.py:52-63 | whatever the outcome nothing is removed, and `backup<k>` for `k >= n` keeps its URL |
| OperationsSpec.StaleBackupIsNoTarget | src/overleaf2gitlab/backup/operations.py:53-55 | `backup<k>` for `k >= n` is not a target |
| OperationsSpec.PatchNothingToDo | src/overleaf2gitlab/backup/operations.py:44-61 | remotes that already hold origin and every backup at clean URLs give the patcher nothing to do |
| OperationsSpec.PatchIdempotent | src/overleaf2gitlab/backup/operations.py:31-65 | patching what a successful patch left issues no command, succeeds and changes nothing, whatever git would answer |
| OperationsSpec.MasterPushes | src/overleaf2gitlab/backup/operations.py:97-109 | one `git push <remote> master` per remote, in order |
| OperationsSpec.MasterSyncResult | src/overleaf2gitlab/backup/operations.py:71-115 | the variant's sync succeeds iff the mirror is a repository and `git pull origin master` works, whatever the pushes do |
| OperationsSpec.MasterSyncFacts | src/overleaf2gitlab/backup/operations.py:84-111 | only the master pull and master pushes are issued; after the pull every backup-prefixed remote is pushed once, in sorted order |
| OperationsSpec.MasterTraceFacts | src/overleaf2gitlab/backup/operations.py:84-109 | the pull followed by master pushes to the given remotes issues nothing else, in that order |
| OperationsSpec.MasterPushTargets | src/overleaf2gitlab/backup/operations.py:97-109 | the master pushes go to the given remotes in order |
| OperationsSpec.MainOnlyProjectFailsHere | src/overleaf2gitlab/backup/operations.py:84-87 | a project with only a `main` branch syncs through `backup.py`'s fallback but fails in this variant |
| OperationsSpec.PatchBackupGating | src/overleaf2gitlab/backup/operations.py:117-142 | setup gates sync and sync gates cleanup, with no validation step; success iff setup and the master pull work; an exception escapes only from provisioning |
| OperationsSpec.CleanupFailureOnlyWarns | src/overleaf2gitlab/backup/operations.py:134-142 | a failed cleanup after a good sync still returns True here, while `backup.py` does not |
| Operations.PatchRemote | src/overleaf2gitlab/backup/operations.py:53-63 | one target judged against the snapshot: add, set-url or nothing, as `PatchOne` says |
| Operations.PatchTargets | src/overleaf2gitlab/backup/operations.py:39-65 | the loop over the targets ends as `PatchAll` says, keeping what was applied before a failure |
| Operations.SetupGitRemotes | src/overleaf2gitlab/backup/operations.py:31-69 | the variant's setup ends as `PatchSetupResult` says; unless provisioning raised it leaves `PatchedRemotes`, including after a failed command; after a raise the mirror is an empty repository if `git init` worked and unchanged if it did not |
| Operations.PushMaster | src/overleaf2gitlab/backup/operations.py:97-109 | the push loop issues `MasterPushes` |
| Operations.SyncRepositories | src/overleaf2gitlab/backup/operations.py:71-115 | the variant's sync gives `MasterSyncResult` of the observed remotes |
| Operations.BackupOverleafProject | src/overleaf2gitlab/backup/operations.py:117-142 | the variant's verdict is `PatchBackupResult`'s; unless provisioning raised, the mirror is `PatchedRemotes` (after a failed setup or sync too), or gone after a cleanup that worked; after a raise it is what provisioning left |
| Cli.ParsePaths | src/overleaf2gitlab/main.py:66-67 | the stored string splits into at least one piece, each stripped and free of commas |
| Cli.EditorJoinSplits | src/overleaf2gitlab/config.py:188 | splitting the editor's `", "` join at commas gives the first path, then each later one with a leading space |
| Cli.ParsePathsRoundTrip | src/overleaf2gitlab/main.py:66-67 | split-and-strip gives back a list the editor joined with `", "`, when no path holds a comma or surrounding whitespace |
| Cli.BackupSingleProjectOutcome | src/overleaf2gitlab/main.py:57-69 | an id not in the mapping returns False and runs no backup; a configured one runs the backup with its parsed stored paths |
| Cli.BulkCounts | src/overleaf2gitlab/main.py:71-84 | without an exception every project is tried in mapping order whatever earlier ones returned; `0 <= success_count <= total_count`, equal iff every backup returned True |
| Cli.BulkAborts | src/overleaf2gitlab/main.py:75-81 | the run raises iff some backup raises; then every earlier backup returned and no later project was tried |
| Cli.FirstRaised | src/overleaf2gitlab/main.py:75-81 | the first project whose backup raises, with none before it |
| Cli.BulkRaisedAt | src/overleaf2gitlab/main.py:75-81 | a raise at position `k` after none before it ends the run having tried exactly the first `k + 1` ids |
| Cli.BulkVerdict | src/overleaf2gitlab/main.py:84 | without an exception the result is True iff every project succeeded, which includes an empty mapping |
| Cli.BulkAfterRaise | src/overleaf2gitlab/main.py:75-81 | after an exception, later projects change nothing |
| Cli.BackupAllProjects | src/overleaf2gitlab/main.py:71-84 | the counting loop returns `BulkResult` and tries the ids `BulkProgress` lists |
| Config.GetOverleafProjectsFacts | src/overleaf2gitlab/config.py:27-39 | a valid configuration gives a non-empty list of projects, each with a non-blank id and path string, as many distinct ids as the validator counts; every id reads as it does in `[repos]`, and as absent without that section |
| Config.ValidatorsAgree | src/overleaf2gitlab/config.py:41-71 | `config.py`'s validator reports a missing file first and otherwise gives the package validator's verdict |
| Config.ConfigParser.Read | src/overleaf2gitlab/config.py:104-105 | reading loads the file's sections, and nothing when the file does not exist |
| Config.ConfigParser.AddSection | src/overleaf2gitlab/config.py:108-109 | a new, empty section is added and nothing else changes |
| Config.ConfigParser.Set | src/overleaf2gitlab/config.py:112 | the section's key is set to the value and nothing else changes |
| Config.AddProjectMapping | src/overleaf2gitlab/config.py:84-121 | the configuration written is the file's with `[repos]` created if missing and `id` set to `paths` |
| Config.AddedFacts | src/overleaf2gitlab/config.py:107-112 | after adding, `repos[id]` reads `paths`, every other project and every other section reads as before, no duplicate appears |
| Config.AddKeepsValid | src/overleaf2gitlab/config.py:84-121 | adding a non-blank mapping to a valid or missing configuration leaves it valid, with one more project iff the id is new |
| Config.SetOptionWellFormed | src/overleaf2gitlab/config.py:112 | setting a non-blank id to a non-blank path string keeps every entry non-blank |
| ConfigValidation.CheckProjectsValid | src/overleaf2gitlab/config/validation.py:16-23 | the loop accepts iff no id and no path string is blank, and then reports `len` of the section, its number of distinct ids |
| ConfigValidation.CheckProjectsFirstProblem | src/overleaf2gitlab/config/validation.py:16-21 | a rejection names the first project in order with a blank id, or a non-blank id and blank paths, every earlier one being well formed |
| ConfigValidation.ValidateConfigIff | src/overleaf2gitlab/config/validation.py:3-23 | valid iff `[repos]` exists, is non-empty and has no blank id or paths; a missing and an empty section are told apart; the count is the number of distinct ids |
| ConfigValidation.MissingFileHasNoRepos | src/overleaf2gitlab/config/validation.py:5-8 | a missing file reads as empty and is reported as having no `[repos]` section |
| Ini.Lookup | src/overleaf2gitlab/main.py:59-66 | a key is found iff it is in the section |
| Ini.LookupFinds | src/overleaf2gitlab/main.py:66 | in a section without duplicates, a key's entry is what the lookup finds |
| Ini.SetOptionLookup | src/overleaf2gitlab/config.py:112 | after setting, the key reads the new value and every other key reads as before |
| Ini.SetOptionKeys | src/overleaf2gitlab/config.py:112 | setting adds the key to the section's keys, growing it by one entry iff the key is new |
| Ini.SetOptionDistinct | src/overleaf2gitlab/config.py:112 | setting creates no duplicate key |
| Ini.DistinctKeysCount | src/overleaf2gitlab/config/validation.py:23 | with distinct ids, `len` of the section, its number of ids, is its number of entries |
| Ini.SetOptionFacts | src/overleaf2gitlab/config.py:112 | the three facts above together |
| Text.StripIsClean | src/overleaf2gitlab/backup/git.py:19 | `strip()` leaves no surrounding whitespace, and a string is its own strip iff it has none |
| Text.IsBlankMeans | src/overleaf2gitlab/config/validation.py:17-20 | `not s.strip()` holds iff every character is whitespace |
| Text.Split | src/overleaf2gitlab/main.py:66 | `split` gives at least one piece, no piece holds the separator, and joining the pieces gives the string back |
| Text.SplitJoin | src/overleaf2gitlab/main.py:66 | splitting a join of pieces without the separator gives the pieces back |
| Text.NatToStringInjective | src/overleaf2gitlab/backup.py:190 | distinct indices render as distinct decimal strings |
| Ordering.SortedNames | src/overleaf2gitlab/backup.py:277 | `sorted` of the backup names lists each name once, in strictly increasing string order |
| Ordering.SortedNamesUnique | src/overleaf2gitlab/backup.py:277 | any strictly increasing listing of the names is that `sorted` result |

## Left out

- **Git itself.** Real processes, `capture_output` and verbose output toggling, and network pulls and pushes are left out. Commands are outcomes of an oracle, and the repository is the `isRepo` flag plus the remote map.
- **Filesystem effects.** The cache directory, the `.git` existence check and `rm -rf` are flags on the mirror. The credential file under `Path.home()` is environment I/O.
- **Printing.** All messages and warnings are left out. Only the verdicts are kept, plus the validator's diagnosis and the names its warning would list.
- **INI parsing.** `configparser` is not modelled: key lower-casing, the `DEFAULT` section, reading and writing the file, and an unreadable file. The model starts from an already-parsed configuration. `add_project_mapping`'s `except` path, which returns False when the directory or the file cannot be written, is left out with the write itself.
- **Interactive and CLI code.** The menus of `config.py` and `config/manager.py`, `handle_init_command`, `main`, argument parsing, the root-level legacy copies and `setup.py` are not part of this model.
- **`config.py`'s `validate_config`.** It checks for the file before reading it. The model represents a file as `Option<Config>`: `None` is a missing file.
- **Inspection in the workflows.** In `Backup` and `Operations`, `get_all_git_remotes` is the oracle-level `Git.Observe`. The text-level inspector in `Inspector` computes the same map (`Inspector.FaithfulListing`). The oracle's `urlOk` plays the part of `get-url` failing for a name.
- **`backup_single_project` and `backup_all_projects`.** The backup they call is a parameter `attempt`, one verdict per project. Each project runs on its own mirror, and `BackupSpec.BackupResult` describes that run.
- **`operations.py`'s patch loop.** It is modelled as one loop over the target list: origin first, then `backup0..backup(n-1)`, all judged against the single snapshot the code takes before any change.
- **Python's `str.isspace`.** It is modelled by the Unicode White_Space code points plus U+001C..U+001F. Python's full Unicode database is not.
