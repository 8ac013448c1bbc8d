/** The tree builder of `fetch_tree_with_git`: the lines of a
    `git ls-tree -r --name-only` listing become nested dictionaries, one per
    directory, whose leaves are the marker `"file"`. */
module PathTree {
  import opened Common
  import opened OrderedDict
  import opened Text

  /** A tree entry's value: the `"file"` marker or a nested directory. */
  datatype PathNode = File | Dir(entries: Dict<PathNode>)

  /** `p` is a proper prefix of `q`. */
  predicate StrictPrefix(p: seq<string>, q: seq<string>)
  {
    |p| < |q| && q[..|p|] == p
  }

  /** `path` names a file of the directory `level`: a chain of directories
      ending in a file marker. */
  predicate Reachable(level: Dict<PathNode>, path: seq<string>)
    decreases |path|
  {
    && |path| >= 1
    && match Get<PathNode>(level, path[0])
       case None => false
       case Some(File) => |path| == 1
       case Some(Dir(es)) => |path| >= 2 && Reachable(es, path[1..])
  }

  /** Every directory holds each name at most once, so paths that share a
      directory prefix share that directory's node. */
  predicate ValidTree(level: Dict<PathNode>)
    decreases Dir(level)
  {
    && DistinctKeys(level)
    && forall i :: 0 <= i < |level| && level[i].1.Dir? ==> ValidTree(level[i].1.entries)
  }

  /** One iteration of the parse loop: walk `parts[:-1]` with
      `current = current.setdefault(part, {})`, then set
      `current[parts[-1]] = "file"`. Walking into a file marker makes the
      source raise (a string has no `setdefault` and takes no item
      assignment), modelled as None. */
  function Insert(level: Dict<PathNode>, parts: seq<string>): Option<Dict<PathNode>>
    requires |parts| >= 1
    decreases |parts|
  {
    if |parts| == 1 then Some(Put(level, parts[0], File))
    else
      var sub := match Get<PathNode>(level, parts[0])
                 case None => Some([])
                 case Some(File) => None
                 case Some(Dir(es)) => Some(es);
      if sub.None? then None
      else match Insert(sub.value, parts[1..])
        case None => None
        case Some(es) => Some(Put(level, parts[0], Dir(es)))
  }

  /** Inserting fails exactly when a proper prefix of the path already names a file. */
  lemma {:induction false} InsertFails(level: Dict<PathNode>, parts: seq<string>)
    requires |parts| >= 1
    ensures Insert(level, parts).None? <==>
            exists k :: 1 <= k < |parts| && Reachable(level, parts[..k])
    decreases |parts|
  {
    if |parts| > 1 {
      var rest := parts[1..];
      assert parts[..1] == [parts[0]];
      match Get<PathNode>(level, parts[0])
      case None =>
        InsertFails([], rest);
        forall k | 1 <= k < |parts|
          ensures !Reachable(level, parts[..k])
        {
          assert parts[..k][0] == parts[0];
        }
      case Some(File) =>
        assert Reachable(level, parts[..1]);
      case Some(Dir(es)) =>
        InsertFails(es, rest);
        if Insert(level, parts).None? {
          var k' :| 1 <= k' < |rest| && Reachable(es, rest[..k']);
          var k := k' + 1;
          assert parts[..k][0] == parts[0] && parts[..k][1..] == rest[..k'];
          assert Reachable(level, parts[..k]);
        } else {
          forall k | 1 <= k < |parts|
            ensures !Reachable(level, parts[..k])
          {
            if k > 1 {
              assert parts[..k][0] == parts[0] && parts[..k][1..] == rest[..k - 1];
            }
          }
        }
    }
  }

  /** Whether a path is reachable depends only on the entry for its first name. */
  lemma SameFirstEntry(a: Dict<PathNode>, b: Dict<PathNode>, q: seq<string>)
    requires |q| >= 1 && Get<PathNode>(a, q[0]) == Get<PathNode>(b, q[0])
    ensures Reachable(a, q) == Reachable(b, q)
  {
  }

  /** The directory an insertion descends into: the existing one, or a new empty one. */
  function SubLevel(level: Dict<PathNode>, name: string): Dict<PathNode>
  {
    match Get<PathNode>(level, name)
    case Some(Dir(es)) => es
    case _ => []
  }

  /** A path of two or more names goes through the directory of its first name. */
  lemma ReachThroughSubLevel(level: Dict<PathNode>, q: seq<string>)
    requires |q| >= 2 && Get<PathNode>(level, q[0]) != Some(File)
    ensures Reachable(level, q) <==> Reachable(SubLevel(level, q[0]), q[1..])
  {
  }

  /** A path through the directory that an insertion rebuilt. */
  lemma {:induction false} InsertReachBelow(level: Dict<PathNode>, parts: seq<string>, q: seq<string>)
    requires |parts| >= 2 && Insert(level, parts).Some?
    requires |q| >= 1 && q[0] == parts[0]
    requires InsertReachHolds(SubLevel(level, parts[0]), parts[1..], q[1..])
    ensures InsertReachHolds(level, parts, q)
  {
    var rest := parts[1..];
    var es := SubLevel(level, parts[0]);
    var es' := Insert(es, rest).value;
    var r := Insert(level, parts).value;
    assert r == Put(level, parts[0], Dir(es'));
    assert Get<PathNode>(r, q[0]) == Some(Dir(es'));
    assert q == [q[0]] + q[1..] && parts == [parts[0]] + rest;
    if |q| >= 2 {
      assert q == parts <==> q[1..] == rest;
      if |parts| < |q| {
        assert q[..|parts|] == [q[0]] + q[1..][..|rest|];
      }
      assert StrictPrefix(parts, q) <==> StrictPrefix(rest, q[1..]);
      assert Get<PathNode>(level, parts[0]) != Some(File);
      ReachThroughSubLevel(level, q);
    } else {
      assert !Reachable(level, q);
    }
  }

  /** The statement of InsertReach for one path `q`. */
  predicate InsertReachHolds(level: Dict<PathNode>, parts: seq<string>, q: seq<string>)
    requires |parts| >= 1 && Insert(level, parts).Some?
  {
    Reachable(Insert(level, parts).value, q) <==>
      q == parts || (Reachable(level, q) && !StrictPrefix(parts, q))
  }

  /** After a successful insertion the files are the inserted path and the
      earlier files not below it: writing `"file"` over a directory drops
      everything that directory held. */
  lemma {:induction false} InsertReach(level: Dict<PathNode>, parts: seq<string>, q: seq<string>)
    requires |parts| >= 1 && Insert(level, parts).Some?
    ensures Reachable(Insert(level, parts).value, q) <==>
            q == parts || (Reachable(level, q) && !StrictPrefix(parts, q))
    decreases |parts|
  {
    var r := Insert(level, parts).value;
    if |q| >= 1 {
      if q[0] != parts[0] {
        SameFirstEntry(r, level, q);
        assert !StrictPrefix(parts, q) by {
          if |parts| < |q| {
            assert q[..|parts|][0] == q[0];
          }
        }
      } else if |parts| == 1 {
        if |q| == 1 {
          assert q == parts;
        } else {
          assert q[..1] == [q[0]];
        }
      } else {
        InsertReach(SubLevel(level, parts[0]), parts[1..], q[1..]);
        InsertReachBelow(level, parts, q);
      }
    }
  }

  /** Insertion keeps every directory free of repeated names. */
  lemma {:induction false} InsertValid(level: Dict<PathNode>, parts: seq<string>)
    requires |parts| >= 1 && Insert(level, parts).Some? && ValidTree(level)
    ensures ValidTree(Insert(level, parts).value)
    decreases |parts|
  {
    if |parts| > 1 {
      var rest := parts[1..];
      var es := SubLevel(level, parts[0]);
      assert ValidTree(es) by {
        var i := IndexOf(level, parts[0]);
        if i < |level| && level[i].1.Dir? {
          assert es == level[i].1.entries;
        }
      }
      InsertValid(es, rest);
      var r := Insert(level, parts).value;
      assert r == Put(level, parts[0], Dir(Insert(es, rest).value));
      forall i | 0 <= i < |r| && r[i].1.Dir?
        ensures ValidTree(r[i].1.entries)
      {
        if r[i] !in level {
          assert r[i] == (parts[0], Dir(Insert(es, rest).value));
        }
      }
    }
  }

  /** The tree the parse loop builds from a listing, one path after the
      other; None when the loop raises. */
  function BuildTree(paths: seq<string>): Option<Dict<PathNode>>
  {
    if paths == [] then Some([])
    else match BuildTree(paths[..|paths| - 1])
      case None => None
      case Some(t) => Insert(t, Split(Last(paths), '/'))
  }

  /** Once the loop has raised, the later paths do not matter. */
  lemma {:induction false} BuildTreeFailureStays(paths: seq<string>, n: nat)
    requires n <= |paths| && BuildTree(paths[..n]).None?
    ensures BuildTree(paths).None?
    decreases |paths| - n
  {
    if n < |paths| {
      assert paths[..n + 1][..n] == paths[..n];
      BuildTreeFailureStays(paths, n + 1);
    } else {
      assert paths[..n] == paths;
    }
  }

  /** One more line of the listing is inserted into the tree so far. */
  lemma BuildTreeStep(paths: seq<string>, i: nat, t: Dict<PathNode>)
    requires i < |paths| && BuildTree(paths[..i]) == Some(t)
    ensures BuildTree(paths[..i + 1]) == Insert(t, Split(paths[i], '/'))
  {
    assert paths[..i + 1][..i] == paths[..i];
  }

  /** The parse loop of `fetch_tree_with_git`, over the lines of the listing. */
  method ParseTree(files: seq<string>) returns (tree: Option<Dict<PathNode>>)
    ensures tree == BuildTree(files)
  {
    var t: Dict<PathNode> := [];
    for i := 0 to |files|
      invariant BuildTree(files[..i]) == Some(t)
    {
      BuildTreeStep(files, i, t);
      var parts := Split(files[i], '/');
      match Insert(t, parts)
      case None =>
        BuildTreeFailureStays(files, i + 1);
        return None;
      case Some(next) =>
        t := next;
    }
    assert files[..|files|] == files;
    return Some(t);
  }

  /** Every tree the loop builds holds each name at most once per directory. */
  lemma {:induction false} BuildTreeValid(paths: seq<string>)
    requires BuildTree(paths).Some?
    ensures ValidTree(BuildTree(paths).value)
  {
    if paths != [] {
      var init := paths[..|paths| - 1];
      BuildTreeValid(init);
      InsertValid(BuildTree(init).value, Split(Last(paths), '/'));
    }
  }

  /** `q` is the split form of some path of the listing. */
  predicate Listed(paths: seq<string>, q: seq<string>)
  {
    exists i :: 0 <= i < |paths| && Split(paths[i], '/') == q
  }

  /** No listed path continues below another listed path: no name is both a
      file and a directory. Listings from `git ls-tree` have this shape. */
  predicate PrefixFree(paths: seq<string>)
  {
    forall i, j :: 0 <= i < |paths| && 0 <= j < |paths| ==>
      !StrictPrefix(Split(paths[i], '/'), Split(paths[j], '/'))
  }

  /** The paths listed before the last one, and the last one. */
  lemma ListedLast(paths: seq<string>, q: seq<string>)
    requires |paths| >= 1
    ensures Listed(paths, q) <==> Listed(paths[..|paths| - 1], q) || q == Split(Last(paths), '/')
  {
    var init := paths[..|paths| - 1];
    if Listed(paths, q) {
      var i :| 0 <= i < |paths| && Split(paths[i], '/') == q;
      if i < |init| {
        assert init[i] == paths[i];
      }
    }
    if Listed(init, q) {
      var i :| 0 <= i < |init| && Split(init[i], '/') == q;
      assert paths[i] == init[i];
    }
  }

  /** Inserting the last path of a git listing into the tree of the others
      does not raise. */
  lemma LastInsertSucceeds(t: Dict<PathNode>, paths: seq<string>)
    requires |paths| >= 1 && PrefixFree(paths)
    requires forall q :: Reachable(t, q) ==> Listed(paths[..|paths| - 1], q)
    ensures Insert(t, Split(Last(paths), '/')).Some?
  {
    var p := Split(Last(paths), '/');
    InsertFails(t, p);
    if Insert(t, p).None? {
      var k :| 1 <= k < |p| && Reachable(t, p[..k]);
      ListedLast(paths, p[..k]);
    }
  }

  /** The files after inserting the last path of a git listing. */
  lemma LastInsertReach(t: Dict<PathNode>, paths: seq<string>, q: seq<string>)
    requires |paths| >= 1 && PrefixFree(paths)
    requires Insert(t, Split(Last(paths), '/')).Some?
    requires Reachable(t, q) <==> Listed(paths[..|paths| - 1], q)
    ensures Reachable(Insert(t, Split(Last(paths), '/')).value, q) <==> Listed(paths, q)
  {
    var p := Split(Last(paths), '/');
    InsertReach(t, p, q);
    ListedLast(paths, q);
    if Reachable(t, q) {
      var i :| 0 <= i < |paths| && Split(paths[i], '/') == q;
      assert !StrictPrefix(Split(paths[|paths| - 1], '/'), Split(paths[i], '/'));
    }
  }

  /** For a listing from git the loop does not raise, and the files of the
      tree are exactly the listed paths, each a chain of directories ending
      in a file marker. */
  lemma {:induction false} BuildTreeListing(paths: seq<string>)
    requires PrefixFree(paths)
    ensures BuildTree(paths).Some?
    ensures forall q :: Reachable(BuildTree(paths).value, q) <==> Listed(paths, q)
  {
    if paths != [] {
      var init := paths[..|paths| - 1];
      assert PrefixFree(init) by {
        assert forall i :: 0 <= i < |init| ==> init[i] == paths[i];
      }
      BuildTreeListing(init);
      var t := BuildTree(init).value;
      LastInsertSucceeds(t, paths);
      forall q
        ensures Reachable(BuildTree(paths).value, q) <==> Listed(paths, q)
      {
        LastInsertReach(t, paths, q);
      }
    }
  }
}
