/**
 * The remote inspector of `src/overleaf2gitlab/backup/git.py` at the level of
 * the text git prints: `git remote` lists one name per line, `git remote
 * get-url <name>` prints the URL. `backup.py` carries a copy that also skips
 * blank names; both are modelled here, and `FaithfulListing` shows that
 * they compute the `Observe` map the rest of the model works with.
 */
module Inspector {
  import opened Wrappers
  import opened Text
  import opened Git

  /** How a `git` call with `check=True` ends: it fails, or prints `stdout`. */
  datatype Output = Failed | Printed(stdout: string)

  /** `get_git_remote_url`: the printed URL stripped, or `None` on failure. */
  function RemoteUrl(out: Output): (r: Option<string>)
    ensures r.None? <==> out.Failed?
    ensures r.Some? ==> Clean(r.value)
  {
    match out
    case Failed => None
    case Printed(text) =>
      StripIsClean(text);
      Some(Strip(text))
  }

  /** The URL a lookup yields when it is truthy (present and non-empty). */
  predicate Truthy(out: Output)
  {
    RemoteUrl(out).Some? && RemoteUrl(out).value != ""
  }

  /** The names `git remote` printed: its output stripped, then cut at newlines. */
  function ListedNames(stdout: string): seq<string>
  {
    Split(Strip(stdout), '\n')
  }

  /** The dictionary the loop builds over `names`: each name whose lookup is
      truthy maps to its URL; `skipBlank` is `backup.py`'s `if remote_name:`. */
  function Collect(names: seq<string>, lookup: string -> Output, skipBlank: bool): map<string, string>
    decreases |names|
  {
    if |names| == 0 then map[]
    else
      var n := names[|names| - 1];
      var prev := Collect(names[..|names| - 1], lookup, skipBlank);
      if (skipBlank && n == "") || !Truthy(lookup(n)) then prev
      else prev[n := RemoteUrl(lookup(n)).value]
  }

  /** `get_all_git_remotes`: `{}` when listing fails. */
  function Inspected(listing: Output, lookup: string -> Output, skipBlank: bool): map<string, string>
  {
    match listing
    case Failed => map[]
    case Printed(text) => Collect(ListedNames(text), lookup, skipBlank)
  }

  /** A name is kept exactly when it is listed (and not a skipped blank) and
      its lookup is truthy; it maps to exactly the URL the lookup returned. */
  lemma {:induction false} CollectEntries(names: seq<string>, lookup: string -> Output, skipBlank: bool, n: string)
    ensures n in Collect(names, lookup, skipBlank) <==>
      n in names && !(skipBlank && n == "") && Truthy(lookup(n))
    ensures n in Collect(names, lookup, skipBlank) ==>
      Collect(names, lookup, skipBlank)[n] == RemoteUrl(lookup(n)).value
    decreases |names|
  {
    if |names| > 0 {
      var init := names[..|names| - 1];
      CollectEntries(init, lookup, skipBlank, n);
      assert names == init + [names[|names| - 1]];
      assert n in names <==> n in init || n == names[|names| - 1];
    }
  }

  /** The result's keys are listed names and its URLs are non-empty and
      stripped; a failed listing gives the empty map. */
  lemma InspectedFacts(listing: Output, lookup: string -> Output, skipBlank: bool)
    ensures listing.Failed? ==> Inspected(listing, lookup, skipBlank) == map[]
    ensures forall n :: n in Inspected(listing, lookup, skipBlank) ==>
      listing.Printed? && n in ListedNames(listing.stdout)
      && Inspected(listing, lookup, skipBlank)[n] != "" && Clean(Inspected(listing, lookup, skipBlank)[n])
  {
    if listing.Printed? {
      forall n | n in Inspected(listing, lookup, skipBlank)
        ensures n in ListedNames(listing.stdout)
        ensures Inspected(listing, lookup, skipBlank)[n] != "" && Clean(Inspected(listing, lookup, skipBlank)[n])
      {
        CollectEntries(ListedNames(listing.stdout), lookup, skipBlank, n);
      }
    }
  }

  /** A repository without remotes prints nothing; the single blank line that
      `split` then yields is skipped by `backup.py` and dropped by `git.py`
      because `git remote get-url ""` fails. */
  lemma NoRemotesListed(text: string, lookup: string -> Output, skipBlank: bool)
    requires Strip(text) == ""
    requires !skipBlank ==> lookup("").Failed?
    ensures Inspected(Printed(text), lookup, skipBlank) == map[]
  {
    SplitWithoutSeparator("", '\n');
    assert ListedNames(text) == [""];
    assert [""][..0] == [];
  }

  /** The two copies agree unless `get-url ""` gives a truthy answer. */
  lemma VariantsAgree(listing: Output, lookup: string -> Output)
    requires !Truthy(lookup(""))
    ensures Inspected(listing, lookup, true) == Inspected(listing, lookup, false)
  {
    if listing.Printed? {
      var names := ListedNames(listing.stdout);
      forall n ensures n in Collect(names, lookup, true) <==> n in Collect(names, lookup, false) {
        CollectEntries(names, lookup, true, n);
        CollectEntries(names, lookup, false, n);
      }
      forall n | n in Collect(names, lookup, true)
        ensures Collect(names, lookup, true)[n] == Collect(names, lookup, false)[n]
      {
        CollectEntries(names, lookup, true, n);
        CollectEntries(names, lookup, false, n);
      }
    }
  }

  /** A clean text followed by git's newline strips back to itself. */
  lemma StripLine(x: string)
    requires Clean(x)
    ensures Strip(x + "\n") == x
  {
    StripIgnoresTrailingSpace(x, '\n');
    StripIsClean(x);
  }

  /** `git remote get-url` echoes the configured URL with a newline, and
      `get_git_remote_url` returns it when it carries no surrounding space. */
  lemma UrlRoundTrip(url: string)
    requires Clean(url)
    ensures RemoteUrl(Printed(url + "\n")) == Some(url)
  {
    StripLine(url);
  }

  /** The first and last characters of a join of non-empty pieces. */
  lemma {:induction false} JoinEnds(xs: seq<string>, sep: string)
    requires |xs| >= 1 && forall i :: 0 <= i < |xs| ==> xs[i] != ""
    ensures |Join(xs, sep)| > 0
    ensures Join(xs, sep)[0] == xs[0][0]
    ensures Join(xs, sep)[|Join(xs, sep)| - 1] == xs[|xs| - 1][|xs[|xs| - 1]| - 1]
    decreases |xs|
  {
    if |xs| > 1 {
      JoinEnds(xs[1..], sep);
      var rest := Join(xs[1..], sep);
      assert Join(xs, sep) == xs[0] + sep + rest;
      assert xs[1..][|xs| - 2] == xs[|xs| - 1];
    }
  }

  /** What `git remote` prints for the names `ns`: one per line. */
  function ListingText(ns: seq<string>): string
  {
    if |ns| == 0 then "" else Join(ns, "\n") + "\n"
  }

  /** The lookup git answers for a mirror: the configured URL plus newline
      where `get-url` works, failure otherwise. */
  function MirrorLookup(m: map<string, string>, g: Oracle): string -> Output
  {
    n => if n in m && g.urlOk(n) then Printed(m[n] + "\n") else Failed
  }

  /** Splitting what `git remote` prints for non-empty names without
      surrounding space or newline gives back those names; no names give the
      single blank line. */
  lemma ListingSplits(ns: seq<string>)
    requires forall i :: 0 <= i < |ns| ==> ns[i] != "" && Clean(ns[i]) && '\n' !in ns[i]
    ensures ListedNames(ListingText(ns)) == if |ns| == 0 then [""] else ns
  {
    if |ns| == 0 {
      SplitWithoutSeparator("", '\n');
    } else {
      var joined := Join(ns, "\n");
      JoinEnds(ns, "\n");
      StripLine(joined);
      SplitJoin(ns, '\n');
    }
  }

  /** A mirror's lookup yields a truthy URL exactly where `Observe` has an entry. */
  lemma MirrorLookupEntry(m: map<string, string>, g: Oracle, n: string)
    requires g.listOk && n != ""
    ensures Truthy(MirrorLookup(m, g)(n)) <==> n in Observe(m, g)
    ensures n in Observe(m, g) ==> RemoteUrl(MirrorLookup(m, g)(n)).value == Observe(m, g)[n]
  {
    if n in m && g.urlOk(n) {
      StripIgnoresTrailingSpace(m[n], '\n');
    }
  }

  /** A listing that names exactly the mirror's remotes (non-empty, without
      surrounding space or newline, as git allows) makes either copy of the
      inspector compute `Observe`. */
  lemma FaithfulListing(m: map<string, string>, ns: seq<string>, g: Oracle, skipBlank: bool)
    requires g.listOk
    requires forall n :: n in m <==> n in ns
    requires forall i :: 0 <= i < |ns| ==> ns[i] != "" && Clean(ns[i]) && '\n' !in ns[i]
    ensures Inspected(Printed(ListingText(ns)), MirrorLookup(m, g), skipBlank) == Observe(m, g)
  {
    ListingSplits(ns);
    CollectIsObserve(if |ns| == 0 then [""] else ns, m, g, skipBlank);
  }

  /** Collecting over names that list the mirror's remotes (plus, perhaps,
      blank lines) with the mirror's lookup gives `Observe`. */
  lemma CollectIsObserve(names: seq<string>, m: map<string, string>, g: Oracle, skipBlank: bool)
    requires g.listOk && "" !in m
    requires forall n :: n != "" ==> (n in names <==> n in m)
    ensures Collect(names, MirrorLookup(m, g), skipBlank) == Observe(m, g)
  {
    var r := Collect(names, MirrorLookup(m, g), skipBlank);
    var o := Observe(m, g);
    forall n ensures (n in r <==> n in o) && (n in r ==> r[n] == o[n]) {
      CollectObserveEntry(names, m, g, skipBlank, n);
    }
  }

  lemma CollectObserveEntry(names: seq<string>, m: map<string, string>, g: Oracle, skipBlank: bool, n: string)
    requires g.listOk && "" !in m
    requires n != "" ==> (n in names <==> n in m)
    ensures var r := Collect(names, MirrorLookup(m, g), skipBlank);
      (n in r <==> n in Observe(m, g)) && (n in r ==> r[n] == Observe(m, g)[n])
  {
    CollectEntries(names, MirrorLookup(m, g), skipBlank, n);
    if n != "" {
      MirrorLookupEntry(m, g, n);
    }
  }

  lemma CollectGrow(names: seq<string>, i: nat, lookup: string -> Output, skipBlank: bool)
    requires i < |names|
    ensures Collect(names[..i + 1], lookup, skipBlank) ==
      if (skipBlank && names[i] == "") || !Truthy(lookup(names[i])) then Collect(names[..i], lookup, skipBlank)
      else Collect(names[..i], lookup, skipBlank)[names[i] := RemoteUrl(lookup(names[i])).value]
  {
    assert names[..i + 1][..i] == names[..i];
  }

  /** The loop of `get_all_git_remotes` over the listed names. */
  method CollectRemotes(names: seq<string>, lookup: string -> Output, skipBlank: bool) returns (remotes: map<string, string>)
    ensures remotes == Collect(names, lookup, skipBlank)
  {
    remotes := map[];
    var i := 0;
    while i < |names|
      invariant 0 <= i <= |names|
      invariant remotes == Collect(names[..i], lookup, skipBlank)
    {
      var name := names[i];
      CollectGrow(names, i, lookup, skipBlank);
      if !(skipBlank && name == "") {
        var url := RemoteUrl(lookup(name));
        if url.Some? && url.value != "" {
          remotes := remotes[name := url.value];
        }
      }
      i := i + 1;
    }
    assert names[..|names|] == names;
  }

  /** `get_all_git_remotes` of `git.py` (`skipBlank` false) and of
      `backup.py` (`skipBlank` true) at the text level. */
  method GetAllGitRemotes(listing: Output, lookup: string -> Output, skipBlank: bool) returns (remotes: map<string, string>)
    ensures remotes == Inspected(listing, lookup, skipBlank)
  {
    match listing
    case Failed =>
      remotes := map[];
    case Printed(text) =>
      remotes := CollectRemotes(ListedNames(text), lookup, skipBlank);
  }
}
