/**
 * `src/overleaf2gitlab/config.py`: reading the project mappings out of the
 * `[repos]` section, validating a configuration file, and adding or
 * overwriting one mapping through a `configparser` object.
 */
module Config {
  import opened Wrappers
  import opened Text
  import opened Ini
  import opened ConfigValidation

  /** `get_overleaf_projects`: the `[repos]` entries, or none without the section. */
  function GetOverleafProjects(c: Config): Section
  {
    if "repos" in c.sections then c.sections["repos"] else []
  }

  /** What the commands rely on: a valid configuration yields projects, each
      with a non-blank id and path string, as many distinct ids as the
      validator counted (the number of entries, as configparser keeps ids
      distinct); and every id reads as it does in `[repos]`, and as
      absent without that section. */
  lemma GetOverleafProjectsFacts(c: Config)
    ensures var projects := GetOverleafProjects(c);
      ValidateConfig(c).ConfigValid? ==>
        && |projects| > 0 && WellFormedFrom(projects, 0) && ValidateConfig(c).count == |Keys(projects)|
        && (DistinctKeys(projects) ==> ValidateConfig(c).count == |projects|)
    ensures forall k ::
      Lookup(GetOverleafProjects(c), k) == if "repos" in c.sections then Lookup(c.sections["repos"], k) else None
  {
    ValidateConfigIff(c);
    if DistinctKeys(GetOverleafProjects(c)) {
      DistinctKeysCount(GetOverleafProjects(c));
    }
  }

  /** `validate_config` of this file: a missing file is reported before
      anything is read; otherwise the checks of the package validator. */
  function ValidateConfigFile(file: Option<Config>): ConfigVerdict
  {
    match file
    case None => MissingFile
    case Some(c) => ValidateConfig(c)
  }

  /** The two validators agree on every existing file; on a missing one this
      one says so, while the package validator reports no `[repos]` section. */
  lemma ValidatorsAgree(file: Option<Config>)
    ensures file.Some? ==> ValidateConfigFile(file) == ValidateStored(file)
    ensures file.None? ==> ValidateConfigFile(file) == MissingFile && ValidateStored(file) == NoReposSection
  {
  }

  /** A `configparser.ConfigParser` as `add_project_mapping` uses it: the
      sections it holds, changed in place. */
  class ConfigParser {
    var sections: map<string, Section>

    constructor ()
      ensures sections == map[]
    {
      sections := map[];
    }

    /** `read`: the file's sections replace the empty start; a missing file is skipped. */
    method Read(file: Option<Config>)
      modifies this
      ensures sections == if file.Some? then file.value.sections else old(sections)
    {
      if file.Some? {
        sections := file.value.sections;
      }
    }

    /** `add_section`; configparser refuses a section that exists. */
    method AddSection(name: string)
      requires name !in sections
      modifies this
      ensures sections == old(sections)[name := []]
    {
      sections := sections[name := []];
    }

    /** `set`; configparser refuses a section that does not exist. */
    method Set(section: string, key: string, value: string)
      requires section in sections
      modifies this
      ensures sections == old(sections)[section := SetOption(old(sections)[section], key, value)]
    {
      sections := sections[section := SetOption(sections[section], key, value)];
    }
  }

  /** The configuration `add_project_mapping` writes back. */
  function Added(file: Option<Config>, id: string, paths: string): Config
  {
    var c := ReadConfig(file);
    Config(c.sections["repos" := SetOption(GetOverleafProjects(c), id, paths)])
  }

  /** `add_project_mapping`: load the file if it exists, make sure `[repos]`
      exists, set `id = paths`, and write the result. */
  method AddProjectMapping(file: Option<Config>, id: string, paths: string) returns (written: Config)
    ensures written == Added(file, id, paths)
  {
    var config := new ConfigParser();
    config.Read(file);
    if "repos" !in config.sections {
      config.AddSection("repos");
    }
    config.Set("repos", id, paths);
    written := Config(config.sections);
  }

  /** After adding, `[repos]` maps `id` to `paths`, every other project reads
      as before, no duplicate appears, and every other section is untouched. */
  lemma AddedFacts(file: Option<Config>, id: string, paths: string)
    ensures var before := GetOverleafProjects(ReadConfig(file));
      var after := GetOverleafProjects(Added(file, id, paths));
      && Lookup(after, id) == Some(paths)
      && (forall k :: k != id ==> Lookup(after, k) == Lookup(before, k))
      && (DistinctKeys(before) ==> DistinctKeys(after))
      && Keys(after) == Keys(before) + {id}
    ensures forall s :: s != "repos" && s in ReadConfig(file).sections ==>
      s in Added(file, id, paths).sections && Added(file, id, paths).sections[s] == ReadConfig(file).sections[s]
    ensures Added(file, id, paths).sections.Keys == ReadConfig(file).sections.Keys + {"repos"}
  {
    SetOptionFacts(GetOverleafProjects(ReadConfig(file)), id, paths);
  }

  /** Adding a mapping with a non-blank id and path string to a valid (or
      missing) configuration leaves it valid, counting one more project
      exactly when the id is new. */
  lemma AddKeepsValid(file: Option<Config>, id: string, paths: string)
    requires file.Some? ==> ValidateConfig(file.value).ConfigValid?
    requires !IsBlank(id) && !IsBlank(paths)
    ensures var before := GetOverleafProjects(ReadConfig(file));
      ValidateConfig(Added(file, id, paths)) == ConfigValid(if id in Keys(before) then |Keys(before)| else |Keys(before)| + 1)
  {
    var before := GetOverleafProjects(ReadConfig(file));
    var after := SetOption(before, id, paths);
    if file.Some? {
      ValidateConfigIff(file.value);
    }
    assert WellFormedFrom(before, 0);
    SetOptionFacts(before, id, paths);
    SetOptionWellFormed(before, id, paths);
    ValidateConfigIff(Added(file, id, paths));
  }

  /** Setting a non-blank id to a non-blank path string keeps every entry well formed. */
  lemma {:induction false} SetOptionWellFormed(s: Section, id: string, paths: string)
    requires WellFormedFrom(s, 0) && !IsBlank(id) && !IsBlank(paths)
    ensures WellFormedFrom(SetOption(s, id, paths), 0)
    decreases |s|
  {
    if |s| > 0 && s[0].key != id {
      assert WellFormedFrom(s[1..], 0) by {
        forall i | 0 <= i < |s[1..]| ensures !IsBlank(s[1..][i].key) && !IsBlank(s[1..][i].value) {
          assert s[1..][i] == s[i + 1];
        }
      }
      SetOptionWellFormed(s[1..], id, paths);
      var r := SetOption(s, id, paths);
      forall i | 0 < i < |r| ensures !IsBlank(r[i].key) && !IsBlank(r[i].value) {
        assert r[i] == SetOption(s[1..], id, paths)[i - 1];
      }
    }
  }
}
