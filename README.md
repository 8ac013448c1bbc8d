# ROS package-dependency reconciliation, modelled in Dafny

The repository checks a ROS distribution manifest against the real layout
of the repositories it names. For every manifest entry, `process_repo`
does the following:

- It fetches the repository's file listing with git and parses it into a
  nested path tree.
- It finds every `package.xml` in the tree, together with the name of the
  folder that holds it.
- It builds each file's raw URL on `raw.githubusercontent.com`.
- It updates a reconciliation report with four counters:
  - `total`: the packages declared by repositories that have a usable URL
    and whose lookup did not raise.
  - `matched`: keys of the repository's dependency dictionary (one per
    folder name, so two findings in folders of the same name count once)
    that are declared packages.
  - `mismatched`: the other keys of that dictionary.
  - `unmatched`: repositories with no usable URL.
- It appends a `key => url` line to the output for each matched package.

A second script, `distro_dist_search`, folds the `repositories` section of
a distribution file into one record per repository, filling in defaults.

The model follows the Python code branch for branch:

- **Dictionaries.** Python dictionaries keep insertion order, so a
  dictionary is a sequence of `(key, value)` entries (`OrderedDict`).
  Assigning to an existing key replaces its value in place; assigning to a
  new key appends.
- **YAML keys.** A key of a loaded YAML mapping is `Absent`, `Null` or
  `Present`, because `d.get(k, default)` returns the default only for a
  missing key.
- **Exceptions.** An uncaught exception is the `Raised` outcome. Inside a
  worker it leaves the report untouched, because the thread pool keeps it
  and nobody reads it.
- **Path tree.** The tree is a `Dir` of named entries, each a `File` or a
  nested `Dir`. Building it fails (`None`) when a listed path goes through
  a name already recorded as a file, where the Python code would raise.
- **Outside answers.** What git and the GitHub API answer is an input
  (`GitResult`, `Remote.defaultBranch`).
- **Imperative code.** The loops of the source are methods with loop
  invariants, each proved equal to a function of its inputs:
  - `ParseTree` builds the tree.
  - `FindAllFilesInTree` searches it.
  - `GetPackageDependencies` builds the results dictionary.
  - `TallyMatches` and `AppendLines` update the report.
  - `DistroConsolidate` consolidates a distribution file.

  The report is a class whose methods update its counters and its output
  lines.

## Model

| member | source | states |
|---|---|---|
| Text.Split | package_dependecies.py:48 | `str.split` on a one-character separator gives at least one part, and no part contains the separator |
| Text.JoinSplit | package_dependecies.py:48 | joining the parts of a split with the separator gives the original string back |
| Text.SplitJoin | package_dependecies.py:48 | splitting the join of separator-free parts gives the parts back |
| Text.SplitCount | package_dependecies.py:23-24 | a string splits into two or more parts exactly when it contains the separator, so `parts[-2]` exists exactly then |
| Text.RStrip | package_dependecies.py:23 | `rstrip(chars)` returns a prefix; every character removed is in the set; the kept prefix does not end with a character of the set |
| Text.RStripRun | package_dependecies.py:23 | stripping a run of set characters off a string that ends otherwise gives that string |
| Text.SplitStripped | package_dependecies.py:23 | stripping a run of set characters off the join of parts, then splitting, gives the parts back |
| GitHub.LastTwoParts | package_dependecies.py:23-24 | `parts[-2], parts[-1]` fails exactly when there is no `/`; otherwise both parts are `/`-free and the string ends with `owner/repo` |
| GitHub.OwnerRepoParts | package_dependecies.py:23-24 | the owner and repository of a URL exist exactly when the stripped URL has a `/`; they are its last two `/`-free segments |
| GitHub.OwnerRepoOfSplit | package_dependecies.py:78-79 | the owner and repository are the last two parts of the stripped URL split on `/` |
| GitHub.OwnerRepoOfParts | package_dependecies.py:78-79 | for a URL made of `/`-free parts plus a trailing run of `.`, `g`, `i`, `t`, the owner and repository are its last two parts |
| GitHub.OwnerRepoStripsCharacters | package_dependecies.py:23 | `rstrip('.git')` removes a run of characters, not a suffix: `https://github.com/ros/dig.git` yields `("ros", "d")` |
| GitHub.CreateRawUrl | package_dependecies.py:67-70 | the raw URL is `https://raw.githubusercontent.com/` followed by owner, repository, branch and file path joined by `/` |
| GitHub.RawUrlExample | package_dependecies.py:67-70 | `ros`, `ros_comm`, `noetic-devel`, `clients/rospy/package.xml` give `https://raw.githubusercontent.com/ros/ros_comm/noetic-devel/clients/rospy/package.xml` |
| GitHub.RawUrlSegments | package_dependecies.py:67-70 | a raw URL split on `/` reads back as scheme, empty part, host, owner, repository, branch, then the file path's own segments, so for an owner, repository and branch without `/` the URL determines its inputs |
| PathTree.InsertFails | package_dependecies.py:49-52 | inserting one listed path fails exactly when a proper prefix of it already names a file |
| PathTree.InsertReach | package_dependecies.py:49-52 | after a successful insertion the files of the tree are the old files not below the inserted path, plus the inserted path: writing `"file"` over a directory drops what it held |
| PathTree.InsertValid | package_dependecies.py:49-52 | insertion keeps every directory free of repeated names |
| PathTree.ParseTree | package_dependecies.py:45-52 | the parse loop yields exactly the tree obtained by inserting the listed paths in order, or fails as that does |
| PathTree.BuildTreeFailureStays | package_dependecies.py:47-52 | once one line has made the loop fail, later lines do not change the outcome |
| PathTree.BuildTreeValid | package_dependecies.py:45-52 | every tree the loop builds holds each name at most once per directory |
| PathTree.BuildTreeListing | package_dependecies.py:45-52 | for a listing in which no path continues below another (as git lists files), building succeeds and the files of the tree are exactly the listed paths |
| TreeSearch.FindAtShaped | package_dependecies.py:58-64 | every finding for one entry has path `filename` with an empty folder, or `q/filename` with the last segment of `q` as folder |
| TreeSearch.FindFromShaped | package_dependecies.py:58-64 | every finding from one entry onward has that shape |
| TreeSearch.FindAllFilesInTree | package_dependecies.py:55-65 | the loop returns the depth-first findings of the directory, in entry order |
| TreeSearch.FindSound | package_dependecies.py:58-64 | every finding is an occurrence of the file reached through directories not named like the file |
| TreeSearch.FindComplete | package_dependecies.py:58-64 | every such occurrence is reported |
| TreeSearch.FindAllExactly | package_dependecies.py:55-65 | the findings of a tree are exactly its occurrences of the file (both directions) |
| TreeSearch.DescendFrom | package_dependecies.py:59 | going down from a non-empty path joins the directory names onto it with `/` |
| TreeSearch.FindingOfDirs | package_dependecies.py:59-62 | the file under `a/b` is reported as `("b", "a/b/" + filename)`, and a file at the root as `("", filename)` |
| OrderedDict.Put | package_dependecies.py:91 | `d[k] = v` makes `k` map to `v`, leaves every other key as it was, and appends exactly when `k` is new |
| OrderedDict.PutKeepsOrder | package_dependecies.py:91 | `d[k] = v` keeps every existing key at its position, and every entry afterwards is an old one or `(k, v)` |
| OrderedDict.DistinctEntries | package_dependecies.py:123-126 | a dictionary without repeated keys has as many distinct entries as keys |
| OrderedDict.PutAllKeys | package_dependecies.py:87-91 | the keys written by a sequence of assignments are exactly the keys assigned |
| OrderedDict.PutAllLastWins | package_dependecies.py:87-91 | a key holds the value of its last assignment |
| OrderedDict.PutAllSize | package_dependecies.py:87-91 | there are no more keys than assignments, and no key twice |
| Dependencies.ResolveBranch | package_dependecies.py:27-28 | a missing or empty branch is replaced by the repository's default branch; any other branch is kept |
| Dependencies.GetPackageDependencies | package_dependecies.py:72-95 | the method returns what the specification function gives: Raised when the URL has no owner part, the clone fails or the tree cannot be built; `{}` when the listing fails; otherwise each finding's key mapped to its raw URL |
| Dependencies.NoTreeNoDependencies | package_dependecies.py:84-95 | a failed listing or an empty one gives an empty dictionary |
| Dependencies.DependenciesRaise | package_dependecies.py:20-53 | the call raises exactly when the stripped URL has no `/`, the clone fails, or the listing names a file as a directory |
| Dependencies.CollectKeys | package_dependecies.py:87-91 | the result's keys are exactly the findings' folders, with the repository's name for a root manifest |
| Dependencies.CollectLastWins | package_dependecies.py:87-91 | each key holds the raw URL of the last finding with that key |
| Dependencies.CollectSize | package_dependecies.py:87-91 | the result has no more entries than findings, and no repeated key |
| Reconcile.MatchedResults | package_dependecies.py:123-128 | `key_value_results` holds exactly the dependency entries whose key is declared, and is no longer than the dependencies |
| Reconcile.MatchedResultsDistinct | package_dependecies.py:123-125 | `key_value_results` repeats no key when the dependency dictionary repeats none |
| Reconcile.ReconciliationReport.constructor | package_dependecies.py:109 | the report starts with all four counters at zero and no output |
| Reconcile.ReconciliationReport.ProcessRepo | package_dependecies.py:111-136 | each counter and the output grow by exactly the effect of one `process_repo` call |
| Reconcile.ReconciliationReport.ApplyDependencies | package_dependecies.py:122-136 | after dependencies were returned or raised, the counters and output grow by the effect of that outcome |
| Reconcile.ReconciliationReport.TallyMatches | package_dependecies.py:123-128 | the loop yields `MatchedResults`; `matched` grows by its size and `mismatched` by the rest of the keys; nothing else changes |
| Reconcile.ReconciliationReport.AppendLines | package_dependecies.py:134-136 | the output grows by one `key => value` line per result, in order; the counters do not change |
| Reconcile.ReconciliationReport.ProcessAll | package_dependecies.py:138-141 | running every manifest entry adds the sum of their effects to the counters and their lines to the output, in order |
| Reconcile.DependenciesDistinct | package_dependecies.py:81-95 | the dictionary `get_package_dependencies` returns has no repeated key |
| Reconcile.OutputLinesExactly | package_dependecies.py:135-136 | one line per result, and every line is the line of some result and conversely |
| Reconcile.MissingUrlEffect | package_dependecies.py:115-118 | a repository whose URL is missing, null or empty only increments `unmatched` |
| Reconcile.FoundRepoEffect | package_dependecies.py:120-136 | for a repository whose dependencies were returned: `unmatched` does not move; `total` grows by the declared list's length, duplicates included; `matched` is the number of distinct dependency entries whose key is declared; `matched + mismatched` is the number of dependency keys; the lines are exactly those of the declared keys |
| Reconcile.RaisingRepoEffect | package_dependecies.py:122-131 | a repository whose URL has no owner part, whose clone fails or whose `packages` is null leaves the report unchanged |
| Reconcile.UnmatchedCountsMissingUrls | package_dependecies.py:115-118 | over a whole run, `unmatched` equals the number of repositories without a usable URL |
| Reconcile.LinesAreDeclared | package_dependecies.py:124-136 | every output line is `key => url` for a key some manifest entry declares |
| Rosdistro.ToRecord | rosdistro_package.py:28-43 | a record raises exactly when `source` or `release` is null; every present field is copied and a null one gives None; the type defaults to `git`; the URL is None exactly when it is missing or null; a missing version gives None; a missing package list gives the repository's own name; a missing release version gives None |
| Rosdistro.DistroConsolidate | rosdistro_package.py:22-43 | the loop returns the consolidation of the document's `repositories`: `{}` when the key is missing, Raised when it is null |
| Rosdistro.RaisedStays | rosdistro_package.py:27-43 | once an entry has raised, later entries do not change the outcome |
| Rosdistro.NoRepositoriesNoRecords | rosdistro_package.py:22 | a document without `repositories` consolidates to `{}` |
| Rosdistro.ConsolidatedRaises | rosdistro_package.py:27-43 | the loop raises exactly when some truthy entry has a null `source` or `release` |
| Rosdistro.ConsolidatedKeys | rosdistro_package.py:27-37 | the consolidated names are exactly the names of the truthy entries; falsy entries are skipped |
| Rosdistro.ConsolidatedValues | rosdistro_package.py:37-43 | each truthy entry's name holds the record built from that entry |
| Rosdistro.ConsolidatedSize | rosdistro_package.py:25-37 | there is at most one record per entry, and no name twice |

## Left out

- `get_default_branch` is an HTTP request to the GitHub API. Its answer (the default branch, or `main` on an error) is the input `Remote.defaultBranch`.
- `git clone --bare` and `git ls-tree` are subprocesses. Their outcome (clone raised, listing failed, or the listed paths) is the input `GitResult`.
- `splitlines` on the listing's text is not modelled: the listing arrives as a sequence of lines.
- The temporary directory is not modelled: its creation, the clone path inside it and its removal.
- Deleting the output file and opening it for append are not modelled. The output is the sequence of lines written.
- The console messages are not modelled, nor the printing of the final report.
- YAML parsing and dumping and argument parsing are not modelled. `yaml.dump` writes keys in sorted order, which the model does not state.
- The downloading loop at the bottom of `rosdistro_package.py` is not modelled, and neither is its HTTP fetch.
- ProcessAll runs the workers one after another. The thread pool's concurrency is not modelled. This includes unsynchronized `+=` on the shared counters, which could lose an increment.
- `setdefault` hands out nested dictionaries that are later mutated through aliases. `Insert` models this on values: it rebuilds the path it walks.
- Manifest values of the wrong YAML type are not modelled: an entry or a `packages` value that is not a mapping or a list, or a non-string URL. Only missing, null and well-typed values are.
- A repository whose search finds nothing is not counted as unmatched, although `unmatched` is described as counting repositories with no usable URL or no findings. The code increments it only when the URL is missing or empty, and the model follows the code (MissingUrlEffect, UnmatchedCountsMissingUrls).
