/** How the core names a repository on GitHub: the owner and repository
    taken from a clone URL, and the raw-content URL of one file at one
    branch. */
module GitHub {
  import opened Common
  import opened Text

  /** The characters `rstrip('.git')` removes: a set, not a suffix. */
  const GitSuffixChars: set<char> := {'.', 'g', 'i', 't'}

  const RawScheme := "https:"
  const RawDomain := "raw.githubusercontent.com"

  /** The fixed start of every raw URL, `https://raw.githubusercontent.com/`. */
  const RawHost := RawScheme + "//" + RawDomain + "/"

  /** The URL of one file's contents at one branch: the raw host, then the
      owner, the repository, the branch and the file path joined by `/`. */
  function CreateRawUrl(owner: string, repo: string, branch: string, filePath: string): (r: string)
    ensures r == RawHost + Join([owner, repo, branch, filePath], '/')
  {
    JoinFour(owner, repo, branch, filePath);
    RawHost + owner + "/" + repo + "/" + branch + "/" + filePath
  }

  /** Joining four parts with `/`. */
  lemma JoinFour(a: string, b: string, c: string, d: string)
    ensures Join([a, b, c, d], '/') == a + "/" + b + "/" + c + "/" + d
  {
    assert [a, b, c, d][1..] == [b, c, d];
    assert [b, c, d][1..] == [c, d];
    assert [c, d][1..] == [d];
    var cd := c + "/" + d;
    assert Join([c, d], '/') == cd;
    var bcd := b + "/" + cd;
    assert Join([b, c, d], '/') == bcd;
    assert Join([a, b, c, d], '/') == a + "/" + bcd;
    assert b + "/" + cd == b + "/" + c + "/" + d;
    assert a + "/" + (b + "/" + c + "/" + d) == a + "/" + b + "/" + c + "/" + d;
  }

  /** The raw URL of `clients/rospy/package.xml` in `ros/ros_comm` at `noetic-devel`. */
  lemma RawUrlExample()
    ensures CreateRawUrl("ros", "ros_comm", "noetic-devel", "clients/rospy/package.xml")
         == "https://raw.githubusercontent.com/ros/ros_comm/noetic-devel/clients/rospy/package.xml"
  {
    RawHostLiteral();
    ExampleOwnerRepo();
    ExampleBranch();
    ExamplePath();
  }

  /** The raw host written out. */
  lemma RawHostLiteral()
    ensures RawHost == "https://raw.githubusercontent.com/"
  {
    assert RawScheme + "//" == "https://";
    assert "https://" + RawDomain == "https://raw.githubusercontent.com";
    assert "https://raw.githubusercontent.com" + "/" == "https://raw.githubusercontent.com/";
  }

  /** The example URL up to its repository. */
  lemma ExampleOwnerRepo()
    ensures "https://raw.githubusercontent.com/" + "ros" + "/" + "ros_comm"
         == "https://raw.githubusercontent.com/ros/ros_comm"
  {
    assert "https://raw.githubusercontent.com/" + "ros" == "https://raw.githubusercontent.com/ros";
    assert "https://raw.githubusercontent.com/ros" + "/" == "https://raw.githubusercontent.com/ros/";
  }

  /** The example URL up to its branch. */
  lemma ExampleBranch()
    ensures "https://raw.githubusercontent.com/ros/ros_comm" + "/" + "noetic-devel" + "/"
         == "https://raw.githubusercontent.com/ros/ros_comm/noetic-devel/"
  {
    assert "https://raw.githubusercontent.com/ros/ros_comm" + "/" == "https://raw.githubusercontent.com/ros/ros_comm/";
    assert "https://raw.githubusercontent.com/ros/ros_comm/" + "noetic-devel"
        == "https://raw.githubusercontent.com/ros/ros_comm/noetic-devel";
  }

  /** The whole example URL. */
  lemma ExamplePath()
    ensures "https://raw.githubusercontent.com/ros/ros_comm/noetic-devel/" + "clients/rospy/package.xml"
         == "https://raw.githubusercontent.com/ros/ros_comm/noetic-devel/clients/rospy/package.xml"
  {
  }

  /** Owner and repository of a clone URL: the last two `/`-separated parts
      of the URL once every trailing `.`, `g`, `i` and `t` is removed. With
      fewer than two parts the source's `parts[-2]` raises, modelled as None. */
  function OwnerRepo(repoUrl: string): Option<(string, string)>
  {
    LastTwo(RStrip(repoUrl, GitSuffixChars))
  }

  /** `parts = s.split('/')` and then `parts[-2], parts[-1]`. */
  function LastTwo(s: string): Option<(string, string)>
  {
    var parts := Split(s, '/');
    if |parts| < 2 then None else Some((parts[|parts| - 2], parts[|parts| - 1]))
  }

  /** The last two parts exist exactly when `s` has a `/`; they hold no `/`
      and sit at the end of `s`. */
  lemma LastTwoParts(s: string)
    ensures LastTwo(s).None? <==> '/' !in s
    ensures LastTwo(s).Some? ==>
              var r := LastTwo(s).value;
              '/' !in r.0 && '/' !in r.1 && EndsWithPair(s, r.0, r.1)
  {
    var parts := Split(s, '/');
    SplitCount(s, '/');
    if |parts| >= 2 {
      JoinSplit(s, '/');
      JoinLastTwo(parts, '/');
      assert EndsWithPair(Join(parts, '/'), parts[|parts| - 2], parts[|parts| - 1]);
    }
  }

  /** The owner and repository are found exactly when the stripped URL has a
      `/`; they hold no `/` and are the last two parts of the stripped URL. */
  lemma OwnerRepoParts(repoUrl: string)
    ensures var s := RStrip(repoUrl, GitSuffixChars);
            var r := OwnerRepo(repoUrl);
            && (r.None? <==> '/' !in s)
            && (r.Some? ==> '/' !in r.value.0 && '/' !in r.value.1 && EndsWithPair(s, r.value.0, r.value.1))
  {
    LastTwoParts(RStrip(repoUrl, GitSuffixChars));
  }

  /** `s` ends with `owner/repo`, and that tail is all of `s` or follows a `/`. */
  predicate EndsWithPair(s: string, owner: string, repo: string)
  {
    var tail := owner + "/" + repo;
    && |tail| <= |s| && s[|s| - |tail|..] == tail
    && (|s| == |tail| || s[|s| - |tail| - 1] == '/')
  }

  /** Owner and repository read off the parts of the stripped URL. */
  lemma OwnerRepoOfSplit(url: string, parts: seq<string>)
    requires |parts| >= 2
    requires Split(RStrip(url, GitSuffixChars), '/') == parts
    ensures OwnerRepo(url) == Some((parts[|parts| - 2], Last(parts)))
  {
  }

  /** The owner and repository of a URL made of separator-free parts and
      then a run of the stripped characters. */
  lemma OwnerRepoOfParts(parts: seq<string>, run: string)
    requires |parts| >= 2
    requires forall i :: 0 <= i < |parts| ==> '/' !in parts[i]
    requires Last(parts) != [] && Last(Last(parts)) !in GitSuffixChars
    requires forall i :: 0 <= i < |run| ==> run[i] in GitSuffixChars
    ensures OwnerRepo(Join(parts, '/') + run) == Some((parts[|parts| - 2], Last(parts)))
  {
    SplitStripped(parts, run, GitSuffixChars);
    OwnerRepoOfSplit(Join(parts, '/') + run, parts);
  }

  /** `rstrip('.git')` on a URL whose repository is called `dig`. */
  lemma ExampleUrlStripped()
    ensures RStrip("https://github.com/ros/dig.git", GitSuffixChars) == "https://github.com/ros/d"
  {
    assert "https://github.com/ros/d" + "ig.git" == "https://github.com/ros/dig.git";
    RStripRun("https://github.com/ros/d", "ig.git", GitSuffixChars);
  }

  /** The parts of the stripped example URL. */
  lemma ExampleUrlSplit()
    ensures Split("https://github.com/ros/d", '/') == ["https:", "", "github.com", "ros", "d"]
  {
    assert Join(["https:", "", "github.com", "ros", "d"], '/') == "https://github.com/ros/d";
    SplitJoin(["https:", "", "github.com", "ros", "d"], '/');
  }

  /** `rstrip` removes a run of characters, not the `.git` suffix: for a
      repository called `dig` the model, like the source, yields `d`. */
  lemma OwnerRepoStripsCharacters()
    ensures OwnerRepo("https://github.com/ros/dig.git") == Some(("ros", "d"))
  {
    ExampleUrlStripped();
    ExampleUrlSplit();
    OwnerRepoOfSplit("https://github.com/ros/dig.git", ["https:", "", "github.com", "ros", "d"]);
  }

  /** Moving one part and its separator from a prefix onto what follows. */
  lemma Regroup(a: string, x: string, q: string)
    ensures a + x + "/" + q == a + (x + "/" + q)
  {
  }

  /** Splitting three separator-free parts followed by the rest. */
  lemma SplitThreeThenRest(x0: string, x1: string, x2: string, q: string)
    requires '/' !in x0 && '/' !in x1 && '/' !in x2
    ensures Split(x0 + "/" + x1 + "/" + x2 + "/" + q, '/') == [x0, x1, x2] + Split(q, '/')
  {
    var s2 := x2 + "/" + q;
    var s1 := x1 + "/" + s2;
    Regroup(x0 + "/" + x1 + "/", x2, q);
    Regroup(x0 + "/", x1, s2);
    SplitAtSep(x2, q, '/');
    SplitAtSep(x1, s2, '/');
    SplitAtSep(x0, s1, '/');
  }

  /** Reading a raw URL back: split on `/`, it gives the scheme, an empty
      part, the host, the owner, the repository and the branch, and then the
      parts of the file path, which rejoin to the path by JoinSplit. */
  lemma RawUrlSegments(owner: string, repo: string, branch: string, filePath: string)
    requires '/' !in owner && '/' !in repo && '/' !in branch
    ensures Split(CreateRawUrl(owner, repo, branch, filePath), '/')
         == [RawScheme, "", RawDomain, owner, repo, branch] + Split(filePath, '/')
  {
    var q := owner + "/" + repo + "/" + branch + "/" + filePath;
    SplitThreeThenRest(owner, repo, branch, filePath);
    RawHostParts();
    RawHostNoSep();
    RawUrlRegroup(owner, repo, branch, filePath);
    SplitThreeThenRest(RawScheme, "", RawDomain, q);
  }

  /** A raw URL is the host's parts followed by the owner's part onwards. */
  lemma RawUrlRegroup(owner: string, repo: string, branch: string, filePath: string)
    ensures CreateRawUrl(owner, repo, branch, filePath)
         == RawHost + (owner + "/" + repo + "/" + branch + "/" + filePath)
  {
  }

  /** The host prefix of a raw URL, part by part. */
  lemma RawHostParts()
    ensures RawHost == RawScheme + "/" + "" + "/" + RawDomain + "/"
  {
  }

  /** Neither the scheme nor the domain holds a separator. */
  lemma RawHostNoSep()
    ensures '/' !in RawScheme && '/' !in RawDomain
  {
  }
}
