/**
 * The backup commands of `src/overleaf2gitlab/main.py`: parsing a project's
 * stored path string, backing up one configured project, and backing up all
 * of them with a success count. The per-project workflow is a parameter
 * `attempt`: each project runs on its own mirror, and what that run does is
 * modelled by the `BackupSpec` module.
 */
module Cli {
  import opened Wrappers
  import opened Text
  import opened Ini
  import opened Git

  /** Whatever runs one project's backup: id and paths to its verdict. */
  type Attempt = (string, seq<string>) -> Verdict

  /** A stored path string cut at every comma, each piece stripped, in order. */
  function ParsePaths(s: string): (paths: seq<string>)
    ensures |paths| >= 1
    ensures forall i :: 0 <= i < |paths| ==> Clean(paths[i]) && ',' !in paths[i]
  {
    var parts := Split(s, ',');
    seq(|parts|, i requires 0 <= i < |parts| =>
      StripIsClean(parts[i]);
      StripKeepsOut(parts[i], ',');
      Strip(parts[i]))
  }

  /** `strip()` only removes characters. */
  lemma StripKeepsOut(s: string, c: char)
    requires c !in s
    ensures c !in Strip(s)
  {
    var l := TrimLeft(s);
    SliceKeepsOut(s, |s| - |l|, |s|, c);
    var r := TrimRight(l);
    SliceKeepsOut(l, 0, |r|, c);
  }

  lemma SliceKeepsOut(s: string, a: nat, b: nat, c: char)
    requires a <= b <= |s| && c !in s
    ensures c !in s[a..b]
  {
    forall i | 0 <= i < b - a ensures s[a..b][i] != c {
      assert s[a..b][i] == s[a + i];
    }
  }

  /** Each element with a space in front, as `", ".join` lays them out after a comma. */
  function Spaced(xs: seq<string>): (ys: seq<string>)
    ensures |ys| == |xs| && forall i :: 0 <= i < |xs| ==> ys[i] == " " + xs[i]
  {
    seq(|xs|, i requires 0 <= i < |xs| => " " + xs[i])
  }

  lemma {:induction false} JoinSpaced(xs: seq<string>)
    requires |xs| >= 1
    ensures " " + Join(xs, ", ") == Join(Spaced(xs), ",")
    decreases |xs|
  {
    if |xs| > 1 {
      JoinSpaced(xs[1..]);
      assert Spaced(xs)[1..] == Spaced(xs[1..]);
    }
  }

  /** The pieces `split(',')` cuts `", ".join(xs)` into: the first element,
      then each later one with its leading space. */
  lemma EditorJoinSplits(xs: seq<string>)
    requires |xs| >= 1
    requires forall i :: 0 <= i < |xs| ==> ',' !in xs[i]
    ensures Split(Join(xs, ", "), ',') == [xs[0]] + Spaced(xs[1..])
  {
    var pieces := [xs[0]] + Spaced(xs[1..]);
    EditorJoinIsCommaJoin(xs);
    forall i | 0 <= i < |pieces| ensures ',' !in pieces[i] {
      if i > 0 {
        assert pieces[i] == " " + xs[i];
      }
    }
    SplitJoin(pieces, ',');
  }

  /** `", ".join(xs)` is the comma join of the first element and the later
      ones each with a leading space. */
  lemma EditorJoinIsCommaJoin(xs: seq<string>)
    requires |xs| >= 1
    ensures Join(xs, ", ") == Join([xs[0]] + Spaced(xs[1..]), ",")
  {
    if |xs| > 1 {
      EditorJoinSeveral(xs);
    } else {
      assert [xs[0]] + Spaced(xs[1..]) == xs;
    }
  }

  lemma EditorJoinSeveral(xs: seq<string>)
    requires |xs| > 1
    ensures Join(xs, ", ") == Join([xs[0]] + Spaced(xs[1..]), ",")
  {
    var rest := Join(xs[1..], ", ");
    var spaced := Spaced(xs[1..]);
    var pieces := [xs[0]] + spaced;
    JoinSpaced(xs[1..]);
    JoinCons(xs, ", ");
    assert pieces[0] == xs[0] && pieces[1..] == spaced;
    JoinCons(pieces, ",");
    CommaSpace(xs[0], rest);
  }

  lemma CommaSpace(a: string, r: string)
    ensures a + ", " + r == a + "," + (" " + r)
  {
    assert ", " == "," + " ";
  }

  lemma JoinCons(xs: seq<string>, sep: string)
    requires |xs| > 1
    ensures Join(xs, sep) == xs[0] + sep + Join(xs[1..], sep)
  {
  }

  /** Splitting what the editor writes (`", ".join(paths)`) and stripping
      each piece gives the list back, when no path holds a comma or
      surrounding whitespace. */
  lemma ParsePathsRoundTrip(xs: seq<string>)
    requires |xs| >= 1
    requires forall i :: 0 <= i < |xs| ==> Clean(xs[i]) && ',' !in xs[i]
    ensures ParsePaths(Join(xs, ", ")) == xs
  {
    var pieces := [xs[0]] + Spaced(xs[1..]);
    EditorJoinSplits(xs);
    StripPieces(xs);
    var r := ParsePaths(Join(xs, ", "));
    assert |r| == |xs|;
    forall i | 0 <= i < |xs| ensures r[i] == xs[i] {
      assert r[i] == Strip(pieces[i]);
    }
  }

  /** Stripping the first element and each later one with its leading space
      gives the clean elements back. */
  lemma StripPieces(xs: seq<string>)
    requires |xs| >= 1
    requires forall i :: 0 <= i < |xs| ==> Clean(xs[i])
    ensures forall i :: 0 <= i < |xs| ==> Strip(([xs[0]] + Spaced(xs[1..]))[i]) == xs[i]
  {
    var pieces := [xs[0]] + Spaced(xs[1..]);
    forall i | 0 <= i < |xs| ensures Strip(pieces[i]) == xs[i] {
      if i == 0 {
        StripIsClean(xs[0]);
      } else {
        assert pieces[i] == Spaced(xs[1..])[i - 1];
        assert xs[1..][i - 1] == xs[i];
        StripAfterSpace(xs[i]);
      }
    }
  }

  /** `backup_single_project`: an id missing from the mapping fails without
      any backup; otherwise its stored paths are parsed and its backup run. */
  function BackupSingleProject(id: string, projects: Section, attempt: Attempt): Verdict
  {
    match Lookup(projects, id)
    case None => Returned(false)
    case Some(stored) => attempt(id, ParsePaths(stored))
  }

  /** An unconfigured id fails whatever a backup would do; a configured one
      runs the backup with the paths stored under it. */
  lemma BackupSingleProjectOutcome(id: string, projects: Section, attempt: Attempt, other: Attempt)
    requires DistinctKeys(projects)
    ensures id !in Keys(projects) ==>
      BackupSingleProject(id, projects, attempt) == Returned(false) == BackupSingleProject(id, projects, other)
    ensures forall k :: 0 <= k < |projects| && projects[k].key == id ==>
      BackupSingleProject(id, projects, attempt) == attempt(id, ParsePaths(projects[k].value))
  {
    forall k | 0 <= k < |projects| && projects[k].key == id
      ensures BackupSingleProject(id, projects, attempt) == attempt(id, ParsePaths(projects[k].value))
    {
      LookupFinds(projects, k);
    }
  }

  /** One project's run, judged from its mapping entry. */
  type Run = Entry -> Verdict

  /** The run `backup_all_projects` starts for an entry: its stored paths
      parsed, then the backup. */
  function RunOf(attempt: Attempt): Run
  {
    (e: Entry) => attempt(e.key, ParsePaths(e.value))
  }

  /** Where the loop stands: whether an exception escaped, how many backups
      returned True, and which ids were tried, in order. */
  datatype Progress = Progress(raised: bool, successes: nat, attempted: seq<string>)

  /** The loop over the mapping's entries; an escaping exception ends it. */
  function BulkProgress(projects: Section, run: Run): Progress
    decreases |projects|
  {
    if |projects| == 0 then Progress(false, 0, [])
    else
      var n := |projects| - 1;
      var prev := BulkProgress(projects[..n], run);
      if prev.raised then prev
      else
        var v := run(projects[n]);
        Progress(v == Raised, prev.successes + if v == Returned(true) then 1 else 0, prev.attempted + [projects[n].key])
  }

  /** `backup_all_projects`: True exactly when every project succeeded. */
  function BulkResult(projects: Section, run: Run): Verdict
  {
    var p := BulkProgress(projects, run);
    if p.raised then Raised else Returned(p.successes == |projects|)
  }

  function Ids(projects: Section): (ids: seq<string>)
    ensures |ids| == |projects| && forall i :: 0 <= i < |projects| ==> ids[i] == projects[i].key
  {
    seq(|projects|, i requires 0 <= i < |projects| => projects[i].key)
  }

  predicate NoneRaise(projects: Section, run: Run)
  {
    forall i :: 0 <= i < |projects| ==> run(projects[i]) != Raised
  }

  predicate AllSucceed(projects: Section, run: Run)
  {
    forall i :: 0 <= i < |projects| ==> run(projects[i]) == Returned(true)
  }

  /** Both predicates hold of a section exactly when they hold of all but its
      last entry and of that entry. */
  lemma PredicatesSnoc(init: Section, e: Entry, run: Run)
    ensures NoneRaise(init + [e], run) <==> NoneRaise(init, run) && run(e) != Raised
    ensures AllSucceed(init + [e], run) <==> AllSucceed(init, run) && run(e) == Returned(true)
  {
    assert forall i :: 0 <= i < |init| ==> (init + [e])[i] == init[i];
    assert (init + [e])[|init|] == e;
  }

  /** One more entry after a prefix that raised nothing. */
  lemma BulkProgressSnoc(init: Section, e: Entry, run: Run)
    requires !BulkProgress(init, run).raised
    ensures var q := BulkProgress(init, run);
      BulkProgress(init + [e], run)
        == Progress(run(e) == Raised, q.successes + (if run(e) == Returned(true) then 1 else 0), q.attempted + [e.key])
  {
    assert (init + [e])[..|init|] == init;
  }

  /** Without an escaping exception every project is tried, in mapping order,
      whatever the earlier ones returned; the count never exceeds the number
      of projects and reaches it exactly when every backup returned True. */
  lemma {:induction false} BulkCounts(projects: Section, run: Run)
    requires NoneRaise(projects, run)
    ensures var p := BulkProgress(projects, run);
      && !p.raised
      && p.attempted == Ids(projects)
      && p.successes <= |projects|
      && (p.successes == |projects| <==> AllSucceed(projects, run))
    decreases |projects|
  {
    if |projects| > 0 {
      var n := |projects| - 1;
      var init := projects[..n];
      PrefixSnoc(projects, n);
      assert projects[..n + 1] == projects;
      PredicatesSnoc(init, projects[n], run);
      BulkCounts(init, run);
      BulkProgressSnoc(init, projects[n], run);
      IdsSnoc(init, projects[n]);
    }
  }

  /** An exception from one project ends the run: the verdict is `Raised`,
      every earlier project returned, and no later project was tried. */
  lemma BulkAborts(projects: Section, run: Run)
    ensures var p := BulkProgress(projects, run);
      p.raised <==> !NoneRaise(projects, run)
    ensures var p := BulkProgress(projects, run);
      p.raised ==>
        exists k ::
          && 0 <= k < |projects|
          && run(projects[k]) == Raised
          && NoneRaise(projects[..k], run)
          && p.attempted == Ids(projects[..k + 1])
  {
    if NoneRaise(projects, run) {
      BulkCounts(projects, run);
    } else {
      var k := FirstRaised(projects, run);
      BulkRaisedAt(projects, k, run);
    }
  }

  /** The position of the first project whose run raises. */
  function FirstRaised(projects: Section, run: Run): (k: nat)
    requires !NoneRaise(projects, run)
    ensures k < |projects| && run(projects[k]) == Raised
    ensures NoneRaise(projects[..k], run)
    decreases |projects|
  {
    if run(projects[0]) == Raised then 0
    else
      assert !NoneRaise(projects[1..], run) by {
        var i :| 0 <= i < |projects| && run(projects[i]) == Raised;
        assert projects[1..][i - 1] == projects[i];
      }
      var k := FirstRaised(projects[1..], run);
      assert projects[..k + 1] == [projects[0]] + projects[1..][..k];
      k + 1
  }

  /** A raise at `k` after none before it: the run is `Raised` and tried
      exactly the first `k + 1` ids. */
  lemma BulkRaisedAt(projects: Section, k: nat, run: Run)
    requires k < |projects| && run(projects[k]) == Raised
    requires NoneRaise(projects[..k], run)
    ensures BulkProgress(projects, run).raised
    ensures BulkProgress(projects, run).attempted == Ids(projects[..k + 1])
  {
    var init := projects[..k];
    PrefixSnoc(projects, k);
    BulkCounts(init, run);
    BulkProgressSnoc(init, projects[k], run);
    IdsSnoc(init, projects[k]);
    BulkAfterRaise(projects, k + 1, run);
  }

  lemma PrefixSnoc(projects: Section, k: nat)
    requires k < |projects|
    ensures projects[..k + 1] == projects[..k] + [projects[k]]
  {
  }

  lemma IdsSnoc(init: Section, e: Entry)
    ensures Ids(init + [e]) == Ids(init) + [e.key]
  {
  }

  /** Without an escaping exception the run returns True exactly when every
      backup returned True, which an empty mapping satisfies. */
  lemma BulkVerdict(projects: Section, run: Run)
    requires NoneRaise(projects, run)
    ensures BulkResult(projects, run) == Returned(true) <==> AllSucceed(projects, run)
  {
    BulkCounts(projects, run);
  }

  /** Once an exception escaped, later projects change nothing. */
  lemma {:induction false} BulkAfterRaise(projects: Section, k: nat, run: Run)
    requires k <= |projects| && BulkProgress(projects[..k], run).raised
    ensures BulkProgress(projects, run) == BulkProgress(projects[..k], run)
    decreases |projects| - k
  {
    if k < |projects| {
      var n := |projects| - 1;
      assert projects[..n][..k] == projects[..k];
      BulkAfterRaise(projects[..n], k, run);
    } else {
      assert projects[..k] == projects;
    }
  }

  /** `backup_all_projects`: back up each project in turn and count the successes. */
  method BackupAllProjects(projects: Section, attempt: Attempt) returns (v: Verdict, attempted: seq<string>)
    ensures v == BulkResult(projects, RunOf(attempt))
    ensures attempted == BulkProgress(projects, RunOf(attempt)).attempted
  {
    var successCount := 0;
    var totalCount := |projects|;
    attempted := [];
    var i := 0;
    while i < |projects|
      invariant 0 <= i <= |projects|
      invariant BulkProgress(projects[..i], RunOf(attempt)) == Progress(false, successCount, attempted)
    {
      var entry := projects[i];
      var paths := ParsePaths(entry.value);
      var result := attempt(entry.key, paths);
      assert result == RunOf(attempt)(entry);
      attempted := attempted + [entry.key];
      assert projects[..i + 1][..i] == projects[..i];
      if result == Raised {
        BulkAfterRaise(projects, i + 1, RunOf(attempt));
        return Raised, attempted;
      }
      if result == Returned(true) {
        successCount := successCount + 1;
      }
      i := i + 1;
    }
    assert projects[..|projects|] == projects;
    v := Returned(successCount == totalCount);
  }
}
