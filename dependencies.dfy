/** `get_package_dependencies`: fetch a repository's tree, find every
    manifest file in it and map each containing folder to the file's raw
    URL. The git commands and the GitHub API are not modelled; their answers
    are inputs. */
module Dependencies {
  import opened Common
  import opened OrderedDict
  import opened Text
  import opened PathTree
  import opened TreeSearch
  import opened GitHub

  /** The file the core looks for by default. */
  const ManifestFile := "package.xml"

  /** What the git commands of `fetch_tree_with_git` yield: `git clone --bare`
      fails (it runs with `check=True`, so the call raises), `git ls-tree`
      exits non-zero (the fetch returns no tree), or the lines of the listing. */
  datatype GitResult = CloneFailed | ListFailed | Listing(paths: seq<string>)

  /** The branch `fetch_tree_with_git` uses: the given one, or, when it is
      None or empty, what `get_default_branch` answers. */
  function ResolveBranch(branch: Option<string>, defaultBranch: string): (b: string)
    ensures branch.Some? && branch.value != "" ==> b == branch.value
    ensures branch.None? || branch.value == "" ==> b == defaultBranch
  {
    if branch.None? || branch.value == "" then defaultBranch else branch.value
  }

  /** The key a finding is recorded under: its folder, or the repository's
      name for a manifest at the root. */
  function DependencyKey(f: Finding, repo: string): string
  {
    if f.folder == "" then repo else f.folder
  }

  /** The entry `results[folder_name] = raw_url` the loop writes for one finding. */
  function Entry(f: Finding, owner: string, repo: string, branch: string): (string, string)
  {
    (DependencyKey(f, repo), CreateRawUrl(owner, repo, branch, f.path))
  }

  /** The entries written for the findings, in order. */
  function Entries(found: seq<Finding>, owner: string, repo: string, branch: string): (es: seq<(string, string)>)
    ensures |es| == |found|
  {
    seq(|found|, i requires 0 <= i < |found| => Entry(found[i], owner, repo, branch))
  }

  /** The `results` dictionary after the loop has gone through `found`. */
  function Collect(found: seq<Finding>, owner: string, repo: string, branch: string): Dict<string>
  {
    PutAll(Entries(found, owner, repo, branch))
  }

  /** What `get_package_dependencies(repo_url, branch, temp_dir, filename)`
      returns or whether it raises, given what git and GitHub answer. */
  function PackageDependencies(repoUrl: string, branch: Option<string>, defaultBranch: string,
                               git: GitResult, filename: string): Outcome<Dict<string>>
  {
    match OwnerRepo(repoUrl)
    case None => Raised
    case Some((owner, repo)) =>
      match git
      case CloneFailed => Raised
      case ListFailed => Returned([])
      case Listing(paths) =>
        match BuildTree(paths)
        case None => Raised
        case Some(tree) =>
          Returned(Collect(FindAll(tree, filename, ""), owner, repo, ResolveBranch(branch, defaultBranch)))
  }

  /** `get_package_dependencies`: the tree is fetched and searched, then a
      loop records each finding's raw URL under its key. */
  method GetPackageDependencies(repoUrl: string, branch: Option<string>, defaultBranch: string,
                                git: GitResult, filename: string)
    returns (r: Outcome<Dict<string>>)
    ensures r == PackageDependencies(repoUrl, branch, defaultBranch, git, filename)
  {
    var ownerRepo := OwnerRepo(repoUrl);
    if ownerRepo.None? {
      return Raised;
    }
    var (owner, repo) := ownerRepo.value;
    var resolved := ResolveBranch(branch, defaultBranch);
    match git {
      case CloneFailed =>
        return Raised;
      case ListFailed =>
        return Returned([]);
      case Listing(paths) =>
        var tree := ParseTree(paths);
        if tree.None? {
          return Raised;
        }
        var found := FindAllFilesInTree(tree.value, filename, "");
        ghost var entries := Entries(found, owner, repo, resolved);
        var results: Dict<string> := [];
        for i := 0 to |found|
          invariant results == PutAll(entries[..i])
        {
          PutAllSnoc(entries, i);
          var rawUrl := CreateRawUrl(owner, repo, resolved, found[i].path);
          var folderName := if found[i].folder == "" then repo else found[i].folder;
          results := Put(results, folderName, rawUrl);
        }
        assert entries[..|found|] == entries;
        return Returned(results);
    }
  }

  /** No tree, or a tree without files, gives an empty dictionary. */
  lemma NoTreeNoDependencies(repoUrl: string, branch: Option<string>, defaultBranch: string,
                             git: GitResult, filename: string)
    requires OwnerRepo(repoUrl).Some?
    requires git == ListFailed || git == Listing([])
    ensures PackageDependencies(repoUrl, branch, defaultBranch, git, filename) == Returned([])
  {
  }

  /** The call raises exactly when the URL has no owner part, the clone
      fails, or the listing names a file as a directory (which a listing
      from git never does, by BuildTreeListing). */
  lemma DependenciesRaise(repoUrl: string, branch: Option<string>, defaultBranch: string,
                          git: GitResult, filename: string)
    ensures PackageDependencies(repoUrl, branch, defaultBranch, git, filename).Raised? <==>
            || '/' !in RStrip(repoUrl, GitSuffixChars)
            || git.CloneFailed?
            || (git.Listing? && BuildTree(git.paths).None?)
  {
    OwnerRepoParts(repoUrl);
  }

  /** The keys are exactly the findings' keys. */
  lemma CollectKeys(found: seq<Finding>, owner: string, repo: string, branch: string, k: string)
    ensures HasKey(Collect(found, owner, repo, branch), k) <==>
            exists i :: 0 <= i < |found| && DependencyKey(found[i], repo) == k
  {
    var entries := Entries(found, owner, repo, branch);
    PutAllKeys(entries, k);
    assert forall i :: 0 <= i < |found| ==> entries[i].0 == DependencyKey(found[i], repo);
  }

  /** A later finding with the same key overwrites an earlier one: each key
      holds the raw URL of the last finding with that key. */
  lemma CollectLastWins(found: seq<Finding>, owner: string, repo: string, branch: string, j: nat)
    requires j < |found|
    requires forall i :: j < i < |found| ==> DependencyKey(found[i], repo) != DependencyKey(found[j], repo)
    ensures Get(Collect(found, owner, repo, branch), DependencyKey(found[j], repo))
         == Some(CreateRawUrl(owner, repo, branch, found[j].path))
  {
    var entries := Entries(found, owner, repo, branch);
    assert forall i :: 0 <= i < |found| ==> entries[i].0 == DependencyKey(found[i], repo);
    PutAllLastWins(entries, j);
  }

  /** There are no more keys than findings, and no key is repeated. */
  lemma CollectSize(found: seq<Finding>, owner: string, repo: string, branch: string)
    ensures |Collect(found, owner, repo, branch)| <= |found|
    ensures DistinctKeys(Collect(found, owner, repo, branch))
  {
    PutAllSize(Entries(found, owner, repo, branch));
  }
}
