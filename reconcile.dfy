/** `process_repo` and the report it updates: per manifest entry, the
    repository's dependency dictionary is compared with the declared
    packages, the four counters move, and the matched entries are appended
    to the output as `key => url` lines. */
module Reconcile {
  import opened Common
  import opened OrderedDict
  import opened Text
  import opened PathTree
  import opened TreeSearch
  import opened GitHub
  import opened Dependencies

  /** One manifest entry as `process_repo` reads it. */
  datatype RepoData = RepoData(url: Field<string>, version: Field<string>, packages: Field<seq<string>>)

  /** What the outside world answers for one repository: the branch
      `get_default_branch` returns, and what the git commands yield. */
  datatype Remote = Remote(defaultBranch: string, git: GitResult)

  /** `repo_data.get("url")` when it is truthy: present and not empty. */
  function RepoUrl(repoData: RepoData): Option<string>
  {
    if repoData.url.Present? && repoData.url.value != "" then Some(repoData.url.value) else None
  }

  /** `repo_data.get("version", "main")`. */
  function Version(repoData: RepoData): Option<string>
  {
    GetOr(repoData.version, Some("main"))
  }

  /** `key_value_results`: the entries of `deps` whose key is a declared
      package, in the order of `deps`. */
  function MatchedResults(deps: Dict<string>, packages: seq<string>): (m: Dict<string>)
    ensures |m| <= |deps|
    ensures forall x :: x in m <==> x in deps && x.0 in packages
  {
    if deps == [] then []
    else
      var init := deps[..|deps| - 1];
      assert deps == init + [Last(deps)];
      MatchedResults(init, packages) + (if Last(deps).0 in packages then [Last(deps)] else [])
  }

  /** `key_value_results` repeats no key when the dependencies repeat none. */
  lemma {:induction false} MatchedResultsDistinct(deps: Dict<string>, packages: seq<string>)
    requires DistinctKeys(deps)
    ensures DistinctKeys(MatchedResults(deps, packages))
  {
    if deps != [] {
      var init := deps[..|deps| - 1];
      MatchedResultsDistinct(init, packages);
    }
  }

  /** The line `f"{key} => {value}\n"` written for one result. */
  function Line(entry: (string, string)): string
  {
    entry.0 + " => " + entry.1 + "\n"
  }

  /** The lines written to the output file for one repository's results. */
  function OutputLines(results: Dict<string>): (lines: seq<string>)
  {
    seq(|results|, i requires 0 <= i < |results| => Line(results[i]))
  }

  /** What one call of `process_repo` adds to the report: to each counter,
      and the lines appended to the output. */
  datatype Effect = Effect(total: nat, matched: nat, mismatched: nat, unmatched: nat, lines: seq<string>)

  const NoEffect := Effect(0, 0, 0, 0, [])

  /** The effect of `process_repo(repo_name, repo_data)`. A repository
      without a usable URL counts as unmatched. An exception inside the
      worker (from `get_package_dependencies`, or `packages` being null)
      ends it before it touches the report, and the thread pool swallows
      it. */
  function RepoEffect(repoData: RepoData, remote: Remote): Effect
  {
    match RepoUrl(repoData)
    case None => Effect(0, 0, 0, 1, [])
    case Some(url) =>
      EffectOf(repoData, PackageDependencies(url, Version(repoData), remote.defaultBranch, remote.git, ManifestFile))
  }

  /** The effect of `process_repo` on a repository with a URL, once
      `get_package_dependencies` has returned `dependencies` or raised. */
  function EffectOf(repoData: RepoData, dependencies: Outcome<Dict<string>>): Effect
  {
    match dependencies
    case Raised => NoEffect
    case Returned(deps) =>
      match repoData.packages
      case Null => NoEffect
      case Absent => Effect(0, 0, |deps|, 0, [])
      case Present(declared) =>
        var m := MatchedResults(deps, declared);
        Effect(|declared|, |m|, |deps| - |m|, 0, OutputLines(m))
  }

  /** The four counters of `reconciliation_report` and the lines appended to
      the output file. */
  class ReconciliationReport {
    var total: nat
    var matched: nat
    var mismatched: nat
    var unmatched: nat
    var output: seq<string>

    /** `{"total": 0, "matched": 0, "mismatched": 0, "unmatched": 0}`, after
        the output file has been deleted. */
    constructor ()
      ensures total == 0 && matched == 0 && mismatched == 0 && unmatched == 0
      ensures output == []
    {
      total, matched, mismatched, unmatched := 0, 0, 0, 0;
      output := [];
    }

    /** `process_repo`, run by itself. */
    method ProcessRepo(repoData: RepoData, remote: Remote)
      modifies this
      ensures var e := RepoEffect(repoData, remote);
              && total == old(total) + e.total
              && matched == old(matched) + e.matched
              && mismatched == old(mismatched) + e.mismatched
              && unmatched == old(unmatched) + e.unmatched
              && output == old(output) + e.lines
    {
      var repoUrl := RepoUrl(repoData);
      if repoUrl.None? {
        unmatched := unmatched + 1;
        return;
      }
      var branch := Version(repoData);
      var dependencies := GetPackageDependencies(repoUrl.value, branch, remote.defaultBranch,
                                                 remote.git, ManifestFile);
      if dependencies.Returned? {
        DependenciesDistinct(repoUrl.value, branch, remote.defaultBranch, remote.git, ManifestFile);
      }
      ApplyDependencies(repoData, dependencies);
    }

    /** The submission loop of `parse_and_validate_yaml`, with the workers
        run one after another: `process_repo` on every manifest entry. */
    method ProcessAll(repos: seq<(RepoData, Remote)>)
      modifies this
      ensures var e := TotalEffect(repos);
              && total == old(total) + e.total
              && matched == old(matched) + e.matched
              && mismatched == old(mismatched) + e.mismatched
              && unmatched == old(unmatched) + e.unmatched
              && output == old(output) + e.lines
    {
      ghost var start, sum := output, NoEffect;
      for i := 0 to |repos|
        invariant sum == TotalEffect(repos[..i])
        invariant && total == old(total) + sum.total
                  && matched == old(matched) + sum.matched
                  && mismatched == old(mismatched) + sum.mismatched
                  && unmatched == old(unmatched) + sum.unmatched
                  && output == old(output) + sum.lines
      {
        ghost var e := RepoEffect(repos[i].0, repos[i].1);
        TotalEffectSnoc(repos, i);
        ProcessRepo(repos[i].0, repos[i].1);
        AppendAssociates(start, sum.lines, e.lines);
        sum := Combine(sum, e);
      }
      assert repos[..|repos|] == repos;
    }

    /** The rest of `process_repo` once `get_package_dependencies` has
        returned or raised. */
    method ApplyDependencies(repoData: RepoData, dependencies: Outcome<Dict<string>>)
      requires dependencies.Returned? ==> DistinctKeys(dependencies.value)
      modifies this
      ensures var e := EffectOf(repoData, dependencies);
              && total == old(total) + e.total
              && matched == old(matched) + e.matched
              && mismatched == old(mismatched) + e.mismatched
              && unmatched == old(unmatched) + e.unmatched
              && output == old(output) + e.lines
    {
      if dependencies.Raised? {
        return;
      }
      var deps := dependencies.value;
      if repoData.packages.Null? {
        // `folder_name in None` raises on the first entry, and with no
        // entries `len(None)` raises: either way before any counter moves.
        return;
      }
      var declared := if repoData.packages.Present? then repoData.packages.value else [];
      var keyValueResults := TallyMatches(deps, declared);
      // Names an element for the membership clause of MatchedResults, so a
      // missing `packages` key (nothing declared) is seen to match nothing.
      if keyValueResults != [] {
        assert keyValueResults[0] in keyValueResults;
      }
      total := total + |declared|;
      AppendLines(keyValueResults);
    }

    /** The loop of `process_repo` over the dependency dictionary: a declared
        key is copied to `key_value_results` and counted as matched, any
        other key is counted as mismatched. */
    method TallyMatches(deps: Dict<string>, declared: seq<string>) returns (keyValueResults: Dict<string>)
      requires DistinctKeys(deps)
      modifies this
      ensures keyValueResults == MatchedResults(deps, declared)
      ensures matched == old(matched) + |keyValueResults|
      ensures mismatched == old(mismatched) + |deps| - |keyValueResults|
      ensures total == old(total) && unmatched == old(unmatched) && output == old(output)
    {
      keyValueResults := [];
      for i := 0 to |deps|
        invariant keyValueResults == MatchedResults(deps[..i], declared)
        invariant matched == old(matched) + |keyValueResults|
        invariant mismatched == old(mismatched) + i - |keyValueResults|
        invariant total == old(total) && unmatched == old(unmatched) && output == old(output)
      {
        var (folderName, rawUrl) := deps[i];
        assert deps[..i + 1][..i] == deps[..i];
        if folderName in declared {
          MatchedKeyIsNew(deps, i, declared);
          keyValueResults := Put(keyValueResults, folderName, rawUrl);
          matched := matched + 1;
        } else {
          mismatched := mismatched + 1;
        }
      }
      assert deps[..|deps|] == deps;
    }

    /** Appending `key => value` lines for `key_value_results` to the output file. */
    method AppendLines(keyValueResults: Dict<string>)
      modifies this
      ensures output == old(output) + OutputLines(keyValueResults)
      ensures total == old(total) && matched == old(matched)
      ensures mismatched == old(mismatched) && unmatched == old(unmatched)
    {
      for i := 0 to |keyValueResults|
        invariant output == old(output) + OutputLines(keyValueResults[..i])
        invariant total == old(total) && matched == old(matched)
        invariant mismatched == old(mismatched) && unmatched == old(unmatched)
      {
        output := output + [Line(keyValueResults[i])];
      }
      assert keyValueResults[..|keyValueResults|] == keyValueResults;
    }
  }

  /** The dictionary `get_package_dependencies` returns has no repeated key. */
  lemma DependenciesDistinct(repoUrl: string, branch: Option<string>, defaultBranch: string,
                             git: GitResult, filename: string)
    requires PackageDependencies(repoUrl, branch, defaultBranch, git, filename).Returned?
    ensures DistinctKeys(PackageDependencies(repoUrl, branch, defaultBranch, git, filename).value)
  {
    match OwnerRepo(repoUrl)
    case Some((owner, repo)) =>
      if git.Listing? {
        var tree := BuildTree(git.paths).value;
        CollectSize(FindAll(tree, filename, ""), owner, repo, ResolveBranch(branch, defaultBranch));
      }
  }

  /** A declared key met in the loop is not yet in `key_value_results`. */
  lemma MatchedKeyIsNew(deps: Dict<string>, i: nat, declared: seq<string>)
    requires i < |deps| && DistinctKeys(deps)
    ensures !HasKey(MatchedResults(deps[..i], declared), deps[i].0)
  {
  }

  /** The output holds one line per result and nothing else. */
  lemma OutputLinesExactly(results: Dict<string>)
    ensures |OutputLines(results)| == |results|
    ensures forall line :: line in OutputLines(results) <==> exists x :: x in results && line == Line(x)
  {
    var lines := OutputLines(results);
    forall line | line in lines
      ensures exists x :: x in results && line == Line(x)
    {
      var i :| 0 <= i < |lines| && lines[i] == line;
      assert results[i] in results;
    }
    forall x | x in results
      ensures Line(x) in lines
    {
      var i :| 0 <= i < |results| && results[i] == x;
      assert lines[i] == Line(x);
    }
  }

  /** A repository without a URL only counts as unmatched. */
  lemma MissingUrlEffect(repoData: RepoData, remote: Remote)
    requires repoData.url.Absent? || repoData.url.Null? || repoData.url == Present("")
    ensures RepoEffect(repoData, remote) == Effect(0, 0, 0, 1, [])
  {
  }

  /** A repository with a URL whose dependencies were found: every key of the
      dependency dictionary is counted once, as matched when it is a
      declared package and as mismatched otherwise; every declared package
      counts towards the total, duplicates included; and the lines written
      are exactly those of the matched entries. */
  lemma FoundRepoEffect(repoData: RepoData, remote: Remote, deps: Dict<string>)
    requires RepoUrl(repoData).Some?
    requires PackageDependencies(RepoUrl(repoData).value, Version(repoData), remote.defaultBranch,
                                 remote.git, ManifestFile) == Returned(deps)
    requires !repoData.packages.Null?
    ensures var e := RepoEffect(repoData, remote);
            var declared := if repoData.packages.Present? then repoData.packages.value else [];
            && e.unmatched == 0
            && e.total == |declared|
            && e.matched == |set x | x in deps && x.0 in declared|
            && e.matched + e.mismatched == |deps|
            && |e.lines| == e.matched
            && forall line :: line in e.lines <==>
                 exists x :: x in deps && x.0 in declared && line == Line(x)
  {
    var declared := if repoData.packages.Present? then repoData.packages.value else [];
    var m := MatchedResults(deps, declared);
    OutputLinesExactly(m);
    DependenciesDistinct(RepoUrl(repoData).value, Version(repoData), remote.defaultBranch,
                         remote.git, ManifestFile);
    MatchedResultsDistinct(deps, declared);
    DistinctEntries(m);
    assert (set x | x in m) == (set x | x in deps && x.0 in declared);
  }

  /** A repository whose dependency search raises leaves the report as it was. */
  lemma RaisingRepoEffect(repoData: RepoData, remote: Remote)
    requires RepoUrl(repoData).Some?
    requires || '/' !in RStrip(RepoUrl(repoData).value, GitSuffixChars)
             || remote.git.CloneFailed?
             || repoData.packages.Null?
    ensures RepoEffect(repoData, remote) == NoEffect
  {
    DependenciesRaise(RepoUrl(repoData).value, Version(repoData), remote.defaultBranch, remote.git, ManifestFile);
  }

  /** Adding up the effects of several calls. */
  function Combine(a: Effect, b: Effect): Effect
  {
    Effect(a.total + b.total, a.matched + b.matched, a.mismatched + b.mismatched,
           a.unmatched + b.unmatched, a.lines + b.lines)
  }

  /** The report after `process_repo` has run on each repository in turn. */
  function TotalEffect(repos: seq<(RepoData, Remote)>): Effect
  {
    if repos == [] then NoEffect
    else
      var (repoData, remote) := Last(repos);
      Combine(TotalEffect(repos[..|repos| - 1]), RepoEffect(repoData, remote))
  }

  /** One more repository adds its own effect. */
  lemma TotalEffectSnoc(repos: seq<(RepoData, Remote)>, i: nat)
    requires i < |repos|
    ensures TotalEffect(repos[..i + 1]) == Combine(TotalEffect(repos[..i]), RepoEffect(repos[i].0, repos[i].1))
  {
    assert repos[..i + 1][..i] == repos[..i];
  }

  /** How many repositories have no usable URL. */
  function MissingUrls(repos: seq<(RepoData, Remote)>): nat
  {
    if repos == [] then 0
    else MissingUrls(repos[..|repos| - 1]) + if RepoUrl(Last(repos).0).None? then 1 else 0
  }

  /** The unmatched counter counts exactly the repositories without a URL. */
  lemma {:induction false} UnmatchedCountsMissingUrls(repos: seq<(RepoData, Remote)>)
    ensures TotalEffect(repos).unmatched == MissingUrls(repos)
  {
    if repos != [] {
      UnmatchedCountsMissingUrls(repos[..|repos| - 1]);
      var (repoData, remote) := Last(repos);
      if RepoUrl(repoData).Some? {
        assert RepoEffect(repoData, remote).unmatched == 0 by {
          var r := PackageDependencies(RepoUrl(repoData).value, Version(repoData), remote.defaultBranch,
                                       remote.git, ManifestFile);
          assert RepoEffect(repoData, remote) == EffectOf(repoData, r);
        }
      }
    }
  }

  /** Every output line belongs to an entry some repository declared and
      found: a line is never written for a package no repository declares. */
  lemma {:induction false} LinesAreDeclared(repos: seq<(RepoData, Remote)>, line: string)
    requires line in TotalEffect(repos).lines
    ensures exists j, x: (string, string) :: 0 <= j < |repos| && repos[j].0.packages.Present?
                           && x.0 in repos[j].0.packages.value && line == Line(x)
  {
    var init := repos[..|repos| - 1];
    var (repoData, remote) := Last(repos);
    if line in TotalEffect(init).lines {
      LinesAreDeclared(init, line);
      var j, x: (string, string) :| 0 <= j < |init| && init[j].0.packages.Present?
                  && x.0 in init[j].0.packages.value && line == Line(x);
      assert repos[j] == init[j];
    } else {
      var r := PackageDependencies(RepoUrl(repoData).value, Version(repoData), remote.defaultBranch,
                                   remote.git, ManifestFile);
      assert RepoEffect(repoData, remote) == EffectOf(repoData, r);
      var m := MatchedResults(r.value, repoData.packages.value);
      OutputLinesExactly(m);
      var x :| x in m && line == Line(x);
      assert repos[|repos| - 1] == (repoData, remote);
    }
  }
}
