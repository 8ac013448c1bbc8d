/** `distro_dist_search` without its download and its YAML dump: every
    repository entry of a ROS distribution file becomes one consolidated
    record, with defaults filled in where the entry says nothing. */
module Rosdistro {
  import opened Common
  import opened OrderedDict
  import opened Text

  /** The `source` mapping of a repository entry. */
  datatype Source = Source(kind: Field<string>, url: Field<string>, version: Field<string>)

  /** The `release` mapping of a repository entry. */
  datatype Release = Release(packages: Field<seq<string>>, version: Field<string>)

  /** A repository entry: its `source` and `release` keys, and whether it
      holds any other key (`doc`, `status`, ...), which only matters for
      its truth value. */
  datatype PackageInfo = PackageInfo(source: Field<Source>, release: Field<Release>, otherKeys: bool)

  /** The loaded distribution file: its `repositories` key. A value in the
      repositories mapping is `Null` or `Present`; `Absent` is never used as
      a value there, and would read as falsy. */
  datatype Document = Document(repositories: Field<Dict<Field<PackageInfo>>>)

  /** One entry of `consolidated_data`; None stands for YAML null. */
  datatype Record = Record(kind: Option<string>, url: Option<string>, version: Option<string>,
                           packages: Option<seq<string>>, packageVersion: Option<string>)

  /** `if package_info:` — null and the empty mapping are false. */
  predicate Truthy(entry: Field<PackageInfo>)
  {
    entry.Present? && (!entry.value.source.Absent? || !entry.value.release.Absent? || entry.value.otherKeys)
  }

  /** A value read with `.get` is the YAML value when the key is there:
      the given value, or None for null. */
  predicate Copies<T(==)>(f: Field<T>, o: Option<T>)
  {
    (f.Present? ==> o == Some(f.value)) && (f.Null? ==> o.None?)
  }

  /** The record built for one truthy entry. A `source` or `release` key
      holding null makes the following `.get` raise. Every key that is
      present is copied, and every missing key gets its default. */
  function ToRecord(name: string, info: PackageInfo): (r: Outcome<Record>)
    ensures r.Raised? <==> info.source.Null? || info.release.Null?
    ensures r.Returned? && info.source.Present? ==>
              && Copies(info.source.value.kind, r.value.kind)
              && Copies(info.source.value.url, r.value.url)
              && Copies(info.source.value.version, r.value.version)
    ensures r.Returned? && info.release.Present? ==>
              && Copies(info.release.value.packages, r.value.packages)
              && Copies(info.release.value.version, r.value.packageVersion)
    ensures r.Returned? && (info.source.Absent? || info.source.value.kind.Absent?) ==> r.value.kind == Some("git")
    ensures r.Returned? ==> (r.value.url.None? <==> info.source.Absent? || !info.source.value.url.Present?)
    ensures r.Returned? && (info.source.Absent? || !info.source.value.version.Present?) ==> r.value.version.None?
    ensures r.Returned? && (info.release.Absent? || info.release.value.packages.Absent?) ==> r.value.packages == Some([name])
    ensures r.Returned? && (info.release.Absent? || !info.release.value.version.Present?) ==> r.value.packageVersion.None?
  {
    if info.source.Null? || info.release.Null? then Raised
    else
      // A missing key reads as the empty mapping `{}`.
      var source := if info.source.Present? then info.source.value else Source(Absent, Absent, Absent);
      var release := if info.release.Present? then info.release.value else Release(Absent, Absent);
      Returned(Record(GetOr(source.kind, Some("git")),
                      GetOr(source.url, None),
                      GetOr(source.version, None),
                      GetOr(release.packages, Some([name])),
                      GetOr(release.version, None)))
  }

  /** `consolidated_data` after the loop has gone through `entries`, or
      Raised when one of them made it raise. */
  function Consolidated(entries: Dict<Field<PackageInfo>>): Outcome<Dict<Record>>
  {
    if entries == [] then Returned([])
    else
      var (name, entry) := Last(entries);
      match Consolidated(entries[..|entries| - 1])
      case Raised => Raised
      case Returned(data) =>
        if !Truthy(entry) then Returned(data)
        else
          match ToRecord(name, entry.value)
          case Raised => Raised
          case Returned(record) => Returned(Put(data, name, record))
  }

  /** What `distro_dist_search` would dump: `content.get("repositories", {})`
      consolidated; a null `repositories` makes `.items()` raise. */
  function Consolidation(document: Document): Outcome<Dict<Record>>
  {
    match document.repositories
    case Absent => Returned([])
    case Null => Raised
    case Present(entries) => Consolidated(entries)
  }

  /** The consolidation loop of `distro_dist_search`. */
  method DistroConsolidate(document: Document) returns (r: Outcome<Dict<Record>>)
    ensures r == Consolidation(document)
  {
    if document.repositories.Null? {
      return Raised;
    }
    var repositories := if document.repositories.Present? then document.repositories.value else [];
    var consolidatedData: Dict<Record> := [];
    for i := 0 to |repositories|
      invariant Consolidated(repositories[..i]) == Returned(consolidatedData)
    {
      assert repositories[..i + 1][..i] == repositories[..i];
      var (packageName, packageInfo) := repositories[i];
      if Truthy(packageInfo) {
        var info := packageInfo.value;
        if info.source.Null? || info.release.Null? {
          RaisedStays(repositories, i + 1);
          return Raised;
        }
        var sourceInfo := if info.source.Present? then info.source.value else Source(Absent, Absent, Absent);
        var releaseInfo := if info.release.Present? then info.release.value else Release(Absent, Absent);
        var gitUrl := GetOr(sourceInfo.url, None);
        consolidatedData := Put(consolidatedData, packageName,
                                Record(GetOr(sourceInfo.kind, Some("git")),
                                       gitUrl,
                                       GetOr(sourceInfo.version, None),
                                       GetOr(releaseInfo.packages, Some([packageName])),
                                       GetOr(releaseInfo.version, None)));
      }
    }
    assert repositories[..|repositories|] == repositories;
    return Returned(consolidatedData);
  }

  /** Once an entry has raised, the later ones do not matter. */
  lemma {:induction false} RaisedStays(entries: Dict<Field<PackageInfo>>, i: nat)
    requires i <= |entries|
    requires Consolidated(entries[..i]).Raised?
    ensures Consolidated(entries).Raised?
    decreases |entries| - i
  {
    if i < |entries| {
      assert entries[..i + 1][..i] == entries[..i];
      RaisedStays(entries, i + 1);
    } else {
      assert entries[..i] == entries;
    }
  }

  /** A document without `repositories` consolidates to nothing. */
  lemma NoRepositoriesNoRecords(document: Document)
    requires document.repositories.Absent?
    ensures Consolidation(document) == Returned([])
  {
  }

  /** The loop raises exactly when a truthy entry has a null `source` or
      `release`. */
  lemma {:induction false} ConsolidatedRaises(entries: Dict<Field<PackageInfo>>)
    ensures Consolidated(entries).Raised? <==>
            exists i :: 0 <= i < |entries| && Truthy(entries[i].1)
                        && (entries[i].1.value.source.Null? || entries[i].1.value.release.Null?)
  {
    if entries != [] {
      var init := entries[..|entries| - 1];
      ConsolidatedRaises(init);
      if exists i :: 0 <= i < |init| && Truthy(init[i].1)
                     && (init[i].1.value.source.Null? || init[i].1.value.release.Null?) {
        var i :| 0 <= i < |init| && Truthy(init[i].1)
                 && (init[i].1.value.source.Null? || init[i].1.value.release.Null?);
        assert entries[i] == init[i];
      }
      if exists i :: 0 <= i < |entries| && Truthy(entries[i].1)
                     && (entries[i].1.value.source.Null? || entries[i].1.value.release.Null?) {
        var i :| 0 <= i < |entries| && Truthy(entries[i].1)
                 && (entries[i].1.value.source.Null? || entries[i].1.value.release.Null?);
        if i < |init| {
          assert init[i] == entries[i];
        }
      }
    }
  }

  /** Falsy entries are left out and every other repository keeps its name:
      the consolidated keys are exactly the names of the truthy entries. */
  lemma {:induction false} ConsolidatedKeys(entries: Dict<Field<PackageInfo>>, k: string)
    requires Consolidated(entries).Returned?
    ensures HasKey(Consolidated(entries).value, k) <==>
            exists i :: 0 <= i < |entries| && entries[i].0 == k && Truthy(entries[i].1)
  {
    if entries != [] {
      var init := entries[..|entries| - 1];
      ConsolidatedKeys(init, k);
      var (name, entry) := Last(entries);
      if Truthy(entry) {
        PutHasKey(Consolidated(init).value, name, ToRecord(name, entry.value).value, k);
      }
      if exists i :: 0 <= i < |init| && init[i].0 == k && Truthy(init[i].1) {
        var i :| 0 <= i < |init| && init[i].0 == k && Truthy(init[i].1);
        assert entries[i] == init[i];
      }
      if exists i :: 0 <= i < |entries| && entries[i].0 == k && Truthy(entries[i].1) {
        var i :| 0 <= i < |entries| && entries[i].0 == k && Truthy(entries[i].1);
        if i < |init| {
          assert init[i] == entries[i];
        }
      }
    }
  }

  /** Each truthy entry of a dictionary yields its own record, under its
      own name, with the defaults of ToRecord. */
  lemma {:induction false} ConsolidatedValues(entries: Dict<Field<PackageInfo>>, i: nat)
    requires DistinctKeys(entries)
    requires Consolidated(entries).Returned?
    requires i < |entries| && Truthy(entries[i].1)
    ensures ToRecord(entries[i].0, entries[i].1.value).Returned?
    ensures Get(Consolidated(entries).value, entries[i].0)
         == Some(ToRecord(entries[i].0, entries[i].1.value).value)
  {
    var init := entries[..|entries| - 1];
    if i < |init| {
      assert init[i] == entries[i];
      ConsolidatedValues(init, i);
    }
  }

  /** There is at most one record per entry, and no name twice. */
  lemma {:induction false} ConsolidatedSize(entries: Dict<Field<PackageInfo>>)
    requires Consolidated(entries).Returned?
    ensures |Consolidated(entries).value| <= |entries|
    ensures DistinctKeys(Consolidated(entries).value)
  {
    if entries != [] {
      ConsolidatedSize(entries[..|entries| - 1]);
    }
  }
}
