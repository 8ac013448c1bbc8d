/** Values shared by every part of the model. */
module Common {

  /** Python's `None` or a value. */
  datatype Option<T> = None | Some(value: T)

  /** One key of a mapping loaded from YAML. The key can be missing, present
      with a null value, or present with a value. Python's `d.get(k, default)`
      tells the first two apart: only a missing key yields the default. */
  datatype Field<T> = Absent | Null | Present(value: T)

  /** How a Python call ended: with a value, or by raising an exception
      that nobody catches. */
  datatype Outcome<T> = Returned(value: T) | Raised

  /** Concatenation regroups. */
  lemma AppendAssociates<T>(a: seq<T>, b: seq<T>, c: seq<T>)
    ensures a + b + c == a + (b + c)
  {
  }

  /** Python's `d.get(k, default)` on a `Field`, with `None` for YAML null. */
  function GetOr<T>(f: Field<T>, default: Option<T>): Option<T>
  {
    match f
    case Absent => default
    case Null => None
    case Present(v) => Some(v)
  }
}

/** A Python 3 dictionary with string keys. Python dictionaries remember
    insertion order, and iteration follows that order, so a dictionary is
    modelled as a sequence of (key, value) entries. Writing to a key that is
    already present replaces its value in place; writing a new key appends. */
module OrderedDict {
  import opened Common

  type Dict<V> = seq<(string, V)>

  /** No key occurs twice: the shape every dictionary built by `Put` has. */
  predicate DistinctKeys<V>(d: Dict<V>)
  {
    forall i, j :: 0 <= i < j < |d| ==> d[i].0 != d[j].0
  }

  /** The position of the first entry with key `k`, or `|d|` when there is none. */
  function IndexOf<V>(d: Dict<V>, k: string): (i: nat)
    ensures i <= |d|
    ensures i < |d| ==> d[i].0 == k
    ensures forall j :: 0 <= j < i ==> d[j].0 != k
  {
    if d == [] then 0
    else if d[0].0 == k then 0
    else 1 + IndexOf(d[1..], k)
  }

  /** The postconditions of IndexOf determine its result. */
  lemma IndexOfUnique<V>(d: Dict<V>, k: string, i: nat)
    requires i <= |d|
    requires i < |d| ==> d[i].0 == k
    requires forall j :: 0 <= j < i ==> d[j].0 != k
    ensures IndexOf(d, k) == i
  {
  }

  /** Python's `k in d`. */
  predicate HasKey<V>(d: Dict<V>, k: string)
  {
    IndexOf(d, k) < |d|
  }

  /** Python's `d.get(k)`. */
  function Get<V>(d: Dict<V>, k: string): Option<V>
  {
    var i := IndexOf(d, k);
    if i < |d| then Some(d[i].1) else None
  }

  /** Python's `d[k] = v`. */
  function Put<V>(d: Dict<V>, k: string, v: V): (r: Dict<V>)
    ensures Get(r, k) == Some(v)
    ensures forall k' :: k' != k ==> Get(r, k') == Get(d, k')
    ensures |r| == if HasKey(d, k) then |d| else |d| + 1
    ensures !HasKey(d, k) ==> r == d + [(k, v)]
  {
    var i := IndexOf(d, k);
    var r := if i < |d| then d[i := (k, v)] else d + [(k, v)];
    IndexOfUnique(r, k, i);
    forall k' | k' != k
      ensures Get(r, k') == Get(d, k')
    {
      var n := IndexOf(d, k');
      IndexOfUnique(r, k', if n < |d| then n else |r|);
    }
    r
  }

  /** `d[k] = v` keeps the order of the keys already there, and every entry
      afterwards is an old one or the new one. */
  lemma PutKeepsOrder<V>(d: Dict<V>, k: string, v: V)
    ensures forall j :: 0 <= j < |d| ==> Put(d, k, v)[j].0 == d[j].0
    ensures forall j :: 0 <= j < |Put(d, k, v)| ==> Put(d, k, v)[j] in d || Put(d, k, v)[j] == (k, v)
  {
  }

  /** `d[k] = v` adds no second copy of a key. */
  lemma PutDistinct<V>(d: Dict<V>, k: string, v: V)
    requires DistinctKeys(d)
    ensures DistinctKeys(Put(d, k, v))
  {
  }

  /** A dictionary has as many distinct entries as it has keys. */
  lemma {:induction false} DistinctEntries<V>(d: Dict<V>)
    requires DistinctKeys(d)
    ensures |set x | x in d| == |d|
  {
    if d != [] {
      var init := d[..|d| - 1];
      DistinctEntries(init);
      assert d == init + [d[|d| - 1]];
      assert (set x | x in d) == (set x | x in init) + {d[|d| - 1]};
      assert d[|d| - 1] !in init;
    }
  }

  /** The keys after `d[k] = v`: those before, and `k`. */
  lemma PutHasKey<V>(d: Dict<V>, k: string, v: V, k': string)
    ensures HasKey(Put(d, k, v), k') <==> HasKey(d, k') || k' == k
  {
    assert HasKey(d, k') <==> Get(d, k').Some?;
    assert HasKey(Put(d, k, v), k') <==> Get(Put(d, k, v), k').Some?;
  }

  /** The dictionary after `d[k] = v` for every entry in turn, starting
      from `{}`. */
  function PutAll<V>(entries: seq<(string, V)>): Dict<V>
  {
    if entries == [] then [] else
      var (k, v) := entries[|entries| - 1];
      Put(PutAll(entries[..|entries| - 1]), k, v)
  }

  /** Writing one more entry. */
  lemma PutAllSnoc<V>(entries: seq<(string, V)>, i: nat)
    requires i < |entries|
    ensures PutAll(entries[..i + 1]) == Put(PutAll(entries[..i]), entries[i].0, entries[i].1)
  {
    assert entries[..i + 1][..i] == entries[..i];
  }

  /** The keys written are exactly the keys of the entries. */
  lemma {:induction false} PutAllKeys<V>(entries: seq<(string, V)>, k: string)
    ensures HasKey(PutAll(entries), k) <==> exists i :: 0 <= i < |entries| && entries[i].0 == k
  {
    if entries != [] {
      var init := entries[..|entries| - 1];
      var (k0, v0) := entries[|entries| - 1];
      PutAllKeys(init, k);
      assert PutAll(entries) == Put(PutAll(init), k0, v0);
      PutHasKey(PutAll(init), k0, v0, k);
      assert forall i :: 0 <= i < |init| ==> init[i] == entries[i];
    }
  }

  /** A later entry with the same key overwrites an earlier one. */
  lemma {:induction false} PutAllLastWins<V>(entries: seq<(string, V)>, j: nat)
    requires j < |entries|
    requires forall i :: j < i < |entries| ==> entries[i].0 != entries[j].0
    ensures Get(PutAll(entries), entries[j].0) == Some(entries[j].1)
  {
    if j < |entries| - 1 {
      var init := entries[..|entries| - 1];
      assert init[j] == entries[j];
      PutAllLastWins(init, j);
    }
  }

  /** There are no more keys than entries, and no key twice. */
  lemma {:induction false} PutAllSize<V>(entries: seq<(string, V)>)
    ensures |PutAll(entries)| <= |entries|
    ensures DistinctKeys(PutAll(entries))
  {
    if entries != [] {
      var init := entries[..|entries| - 1];
      PutAllSize(init);
      PutDistinct(PutAll(init), entries[|entries| - 1].0, entries[|entries| - 1].1);
    }
  }
}
