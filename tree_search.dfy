/** `find_all_files_in_tree`: a depth-first walk of the path tree that
    reports every entry named like the manifest file together with the name
    of the folder holding it. */
module TreeSearch {
  import opened Common
  import opened OrderedDict
  import opened Text
  import opened PathTree

  /** One located manifest file: the folder that holds it (empty at the
      root) and its path from the root. */
  datatype Finding = Finding(folder: string, path: string)

  /** The path of an entry below `path`: `f"{path}/{key}" if path else key`. */
  function Extend(path: string, key: string): string
  {
    if path != "" then path + "/" + key else key
  }

  /** The last segment of a path: `path.split("/")[-1] if "/" in path else path`. */
  function FolderOf(path: string): string
  {
    if '/' in path then Last(Split(path, '/')) else path
  }

  /** `x` is a finding for `filename` under some directory path `q`: its
      path is `filename` itself (at the root, folder empty) or `q` followed
      by `"/" + filename`, and its folder is the last segment of `q`. */
  predicate WellShaped(x: Finding, filename: string)
  {
    || (x.path == filename && x.folder == "")
    || (&& |x.path| > |filename| + 1
        && x.path[|x.path| - |filename| - 1..] == "/" + filename
        && x.folder == FolderOf(x.path[..|x.path| - |filename| - 1]))
  }

  /** What `find_all_files_in_tree(level, filename, path)` reports for the
      `i`-th entry of `level`. An entry named `filename` is reported and not
      descended into; only directories are descended into. */
  function FindAt(level: Dict<PathNode>, filename: string, path: string, i: nat): seq<Finding>
    requires i < |level|
    decreases Dir(level), |level| - i, 0
  {
    var key := level[i].0;
    var current := Extend(path, key);
    if key == filename then [Finding(FolderOf(path), current)]
    else if level[i].1.Dir? then FindFrom(level[i].1.entries, filename, current, 0)
    else []
  }

  /** What `find_all_files_in_tree(level, filename, path)` returns from the
      `i`-th entry of `level` on, in entry order. */
  function FindFrom(level: Dict<PathNode>, filename: string, path: string, i: nat): seq<Finding>
    requires i <= |level|
    decreases Dir(level), |level| - i, 1
  {
    if i == |level| then []
    else FindAt(level, filename, path, i) + FindFrom(level, filename, path, i + 1)
  }

  /** Every finding of one entry is well shaped. */
  lemma {:induction false} FindAtShaped(level: Dict<PathNode>, filename: string, path: string, i: nat)
    requires i < |level|
    ensures forall x :: x in FindAt(level, filename, path, i) ==> WellShaped(x, filename)
    decreases Dir(level), |level| - i, 0
  {
    var key := level[i].0;
    var current := Extend(path, key);
    if key == filename {
      if path != "" {
        assert current[..|current| - |filename| - 1] == path;
        assert current[|current| - |filename| - 1..] == "/" + filename;
      }
    } else if level[i].1.Dir? {
      FindFromShaped(level[i].1.entries, filename, current, 0);
    }
  }

  /** Every finding from the `i`-th entry on is well shaped. */
  lemma {:induction false} FindFromShaped(level: Dict<PathNode>, filename: string, path: string, i: nat)
    requires i <= |level|
    ensures forall x :: x in FindFrom(level, filename, path, i) ==> WellShaped(x, filename)
    decreases Dir(level), |level| - i, 1
  {
    if i < |level| {
      FindAtShaped(level, filename, path, i);
      FindFromShaped(level, filename, path, i + 1);
    }
  }

  /** The findings of a whole directory. */
  function FindAll(level: Dict<PathNode>, filename: string, path: string): seq<Finding>
  {
    FindFrom(level, filename, path, 0)
  }

  /** `find_all_files_in_tree`: a loop over the entries of one directory
      that appends each match and extends with each sub-directory's
      findings. */
  method FindAllFilesInTree(level: Dict<PathNode>, filename: string, path: string)
    returns (found: seq<Finding>)
    ensures found == FindAll(level, filename, path)
    decreases Dir(level)
  {
    found := [];
    for i := 0 to |level|
      invariant found + FindFrom(level, filename, path, i) == FindAll(level, filename, path)
    {
      var (key, value) := level[i];
      var current := Extend(path, key);
      ghost var before := found;
      if key == filename {
        var folder := FolderOf(path);
        found := found + [Finding(folder, current)];
      } else if value.Dir? {
        var below := FindAllFilesInTree(value.entries, filename, current);
        assert below == FindAt(level, filename, path, i);
        found := found + below;
      }
      assert found == before + FindAt(level, filename, path, i);
      AppendAssociates(before, FindAt(level, filename, path, i), FindFrom(level, filename, path, i + 1));
    }
  }

  /** `dirs` leads from `level` through directories, none named `filename`,
      to a directory that has an entry named `filename`. */
  predicate Occurs(level: Dict<PathNode>, filename: string, dirs: seq<string>)
    decreases |dirs|
  {
    if dirs == [] then HasKey(level, filename)
    else
      && dirs[0] != filename
      && match Get<PathNode>(level, dirs[0])
         case Some(Dir(es)) => Occurs(es, filename, dirs[1..])
         case _ => false
  }

  /** The path reached from `path` by going down `dirs`. */
  function Descend(path: string, dirs: seq<string>): string
    decreases |dirs|
  {
    if dirs == [] then path else Descend(Extend(path, dirs[0]), dirs[1..])
  }

  /** The finding reported for the occurrence reached through `dirs`. */
  function FindingAt(path: string, dirs: seq<string>, filename: string): Finding
  {
    var q := Descend(path, dirs);
    Finding(FolderOf(q), Extend(q, filename))
  }

  /** Every finding is an occurrence of `filename` reached through directories. */
  lemma {:induction false} FindSound(level: Dict<PathNode>, filename: string, path: string, i: nat, x: Finding)
    requires i <= |level| && ValidTree(level)
    requires x in FindFrom(level, filename, path, i)
    ensures exists dirs :: Occurs(level, filename, dirs) && x == FindingAt(path, dirs, filename)
    decreases Dir(level), |level| - i
  {
    var key := level[i].0;
    var current := Extend(path, key);
    IndexOfUnique(level, key, i);
    if x !in FindAt(level, filename, path, i) {
      FindSound(level, filename, path, i + 1, x);
    } else if key == filename {
      assert Occurs(level, filename, []);
    } else {
      var es := level[i].1.entries;
      FindSound(es, filename, current, 0, x);
      var dirs' :| Occurs(es, filename, dirs') && x == FindingAt(current, dirs', filename);
      var dirs := [key] + dirs';
      assert dirs[1..] == dirs';
      assert Occurs(level, filename, dirs);
      assert x == FindingAt(path, dirs, filename);
    }
  }

  /** Every occurrence of `filename` reached through directories is reported. */
  lemma {:induction false} FindComplete(level: Dict<PathNode>, filename: string, path: string, i: nat, dirs: seq<string>)
    requires Occurs(level, filename, dirs)
    requires i <= IndexOf(level, if dirs == [] then filename else dirs[0])
    ensures FindingAt(path, dirs, filename) in FindFrom(level, filename, path, i)
    decreases Dir(level), |level| - i
  {
    var name := if dirs == [] then filename else dirs[0];
    if i < IndexOf(level, name) {
      FindComplete(level, filename, path, i + 1, dirs);
    } else if dirs != [] {
      var es := level[i].1.entries;
      FindComplete(es, filename, Extend(path, name), 0, dirs[1..]);
    }
  }

  /** The findings of a tree are exactly its occurrences of `filename`. */
  lemma FindAllExactly(level: Dict<PathNode>, filename: string, path: string, x: Finding)
    requires ValidTree(level)
    ensures x in FindAll(level, filename, path) <==>
            exists dirs :: Occurs(level, filename, dirs) && x == FindingAt(path, dirs, filename)
  {
    if x in FindAll(level, filename, path) {
      FindSound(level, filename, path, 0, x);
    }
    if exists dirs :: Occurs(level, filename, dirs) && x == FindingAt(path, dirs, filename) {
      var dirs :| Occurs(level, filename, dirs) && x == FindingAt(path, dirs, filename);
      FindComplete(level, filename, path, 0, dirs);
    }
  }

  /** Going down from a non-empty path joins the names onto it. */
  lemma {:induction false} DescendFrom(path: string, dirs: seq<string>)
    requires path != ""
    ensures Descend(path, dirs) == Join([path] + dirs, '/')
    decreases |dirs|
  {
    if dirs != [] {
      var path' := path + "/" + dirs[0];
      DescendFrom(path', dirs[1..]);
      if |dirs| == 1 {
        assert ([path] + dirs)[1..] == dirs;
      } else {
        assert ([path'] + dirs[1..])[1..] == dirs[1..];
        assert ([path] + dirs)[1..] == dirs && dirs[1..] == ([dirs[0]] + dirs[1..])[1..];
        assert Join(dirs, '/') == dirs[0] + "/" + Join(dirs[1..], '/');
      }
    }
  }

  /** With ordinary directory names (non-empty, no `/`), the finding under
      `a/b` is `("b", "a/b/" + filename)` and the finding at the root is
      `("", filename)`. */
  lemma FindingOfDirs(dirs: seq<string>, filename: string)
    requires forall i :: 0 <= i < |dirs| ==> dirs[i] != "" && '/' !in dirs[i]
    ensures FindingAt("", dirs, filename)
         == Finding(if dirs == [] then "" else Last(dirs), Join(dirs + [filename], '/'))
  {
    if dirs != [] {
      DescendFrom(dirs[0], dirs[1..]);
      assert [dirs[0]] + dirs[1..] == dirs;
      var q := Join(dirs, '/');
      assert Descend("", dirs) == q;
      JoinEndsWithLast(dirs, '/');
      JoinSnoc(dirs, filename, '/');
      SplitJoin(dirs, '/');
      SplitCount(q, '/');
      if '/' !in q {
        assert dirs == [dirs[0]];
      }
    }
  }
}
