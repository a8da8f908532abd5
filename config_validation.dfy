/**
 * `src/overleaf2gitlab/config/validation.py`: whether a configuration holds
 * a usable `[repos]` section, mapping Overleaf ids to comma-separated GitLab
 * paths. The verdict names the first problem found, in the order the checks
 * run.
 */
module ConfigValidation {
  import opened Wrappers
  import opened Text
  import opened Ini

  /** The outcome of validating; only `ConfigValid` counts as valid, and it
      carries the number of projects the message reports: `len` of the
      section, its number of distinct ids. */
  datatype ConfigVerdict =
    | MissingFile
    | NoReposSection
    | NoProjects
    | BlankId
    | BlankPaths(id: string)
    | ConfigValid(count: nat)

  /** The loop over the projects from index `from`: the first blank id or
      blank path string ends it. */
  function CheckProjects(projects: Section, from: nat): ConfigVerdict
    decreases |projects| - from
  {
    if from >= |projects| then ConfigValid(|Keys(projects)|)
    else if IsBlank(projects[from].key) then BlankId
    else if IsBlank(projects[from].value) then BlankPaths(projects[from].key)
    else CheckProjects(projects, from + 1)
  }

  /** `validate_config` on an already-read configuration. */
  function ValidateConfig(c: Config): ConfigVerdict
  {
    if "repos" !in c.sections then NoReposSection
    else if |c.sections["repos"]| == 0 then NoProjects
    else CheckProjects(c.sections["repos"], 0)
  }

  /** `validate_config` on a path: a missing file reads as empty. */
  function ValidateStored(file: Option<Config>): ConfigVerdict
  {
    ValidateConfig(ReadConfig(file))
  }

  /** Every project from `from` on has a non-blank id and path string. */
  predicate WellFormedFrom(projects: Section, from: nat)
  {
    forall i :: from <= i < |projects| ==> !IsBlank(projects[i].key) && !IsBlank(projects[i].value)
  }

  /** The loop accepts exactly when no project from `from` on is blank, and
      then reports the number of distinct ids. */
  lemma {:induction false} CheckProjectsValid(projects: Section, from: nat)
    ensures CheckProjects(projects, from).ConfigValid? <==> WellFormedFrom(projects, from)
    ensures CheckProjects(projects, from).ConfigValid? ==> CheckProjects(projects, from).count == |Keys(projects)|
    decreases |projects| - from
  {
    if from < |projects| {
      CheckProjectsValid(projects, from + 1);
    }
  }

  /** A rejection names the first offending project: every one before it is
      well formed, and it has a blank id, or a non-blank id with blank paths. */
  lemma {:induction false} CheckProjectsFirstProblem(projects: Section, from: nat)
    ensures var v := CheckProjects(projects, from);
      v.BlankId? ==>
        exists k ::
          && from <= k < |projects|
          && IsBlank(projects[k].key)
          && (forall i :: from <= i < k ==> !IsBlank(projects[i].key) && !IsBlank(projects[i].value))
    ensures var v := CheckProjects(projects, from);
      v.BlankPaths? ==>
        exists k ::
          && from <= k < |projects|
          && v.id == projects[k].key
          && !IsBlank(projects[k].key)
          && IsBlank(projects[k].value)
          && (forall i :: from <= i < k ==> !IsBlank(projects[i].key) && !IsBlank(projects[i].value))
    ensures CheckProjects(projects, from) != MissingFile && CheckProjects(projects, from) != NoReposSection
      && CheckProjects(projects, from) != NoProjects
    decreases |projects| - from
  {
    if from < |projects| && !IsBlank(projects[from].key) && !IsBlank(projects[from].value) {
      CheckProjectsFirstProblem(projects, from + 1);
    }
  }

  /** The configuration is valid exactly when it has a non-empty `[repos]`
      section whose every id and path string is non-blank; the count is then
      the number of distinct ids. A missing section and an empty one are told apart. */
  lemma ValidateConfigIff(c: Config)
    ensures ValidateConfig(c).ConfigValid? <==>
      "repos" in c.sections && |c.sections["repos"]| > 0 && WellFormedFrom(c.sections["repos"], 0)
    ensures ValidateConfig(c).ConfigValid? ==> ValidateConfig(c).count == |Keys(c.sections["repos"])|
    ensures ValidateConfig(c) == NoReposSection <==> "repos" !in c.sections
    ensures ValidateConfig(c) == NoProjects <==> "repos" in c.sections && |c.sections["repos"]| == 0
  {
    if "repos" in c.sections && |c.sections["repos"]| > 0 {
      CheckProjectsValid(c.sections["repos"], 0);
      CheckProjectsFirstProblem(c.sections["repos"], 0);
    }
  }

  /** A missing file is reported as a missing `[repos]` section. */
  lemma MissingFileHasNoRepos()
    ensures ValidateStored(None) == NoReposSection
  {
  }
}
