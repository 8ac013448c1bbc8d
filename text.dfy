/** The Python string operations the core relies on: `str.split(sep)` with
    an explicit one-character separator, its inverse `sep.join(parts)`, and
    `str.rstrip(chars)`. */
module Text {

  /** Python's `s.split(sep)` for a one-character separator: always at least
      one part, empty parts kept, no part contains the separator. */
  function Split(s: string, sep: char): (parts: seq<string>)
    ensures |parts| >= 1
    ensures forall i :: 0 <= i < |parts| ==> sep !in parts[i]
  {
    if s == [] then [""]
    else
      var rest := Split(s[1..], sep);
      if s[0] == sep then [""] + rest
      else [[s[0]] + rest[0]] + rest[1..]
  }

  /** Python's `sep.join(parts)` for a non-empty list. */
  function Join(parts: seq<string>, sep: char): string
    requires |parts| >= 1
  {
    if |parts| == 1 then parts[0] else parts[0] + [sep] + Join(parts[1..], sep)
  }

  /** The last element of a non-empty list, Python's `xs[-1]`. */
  function Last<T>(xs: seq<T>): T
    requires |xs| >= 1
  {
    xs[|xs| - 1]
  }

  /** Joining the parts of a split gives the string back. */
  lemma {:induction false} JoinSplit(s: string, sep: char)
    ensures Join(Split(s, sep), sep) == s
  {
    if s != [] {
      JoinSplit(s[1..], sep);
      var rest := Split(s[1..], sep);
      if s[0] != sep && |rest| > 1 {
        assert Split(s, sep)[1..] == rest[1..];
      }
    }
  }

  /** Splitting a string whose first part holds no separator. */
  lemma {:induction false} SplitFront(a: string, b: string, sep: char)
    requires sep !in a
    ensures Split(a + b, sep) == [a + Split(b, sep)[0]] + Split(b, sep)[1..]
  {
    var sb := Split(b, sep);
    if a == [] {
      assert a + b == b && a + sb[0] == sb[0];
      assert sb == [sb[0]] + sb[1..];
    } else {
      assert (a + b)[1..] == a[1..] + b;
      SplitFront(a[1..], b, sep);
      var rest := Split(a[1..] + b, sep);
      assert rest[0] == a[1..] + sb[0] && rest[1..] == sb[1..];
      assert [a[0]] + (a[1..] + sb[0]) == a + sb[0];
    }
  }

  /** A separator ends the first part. */
  lemma SplitAtSep(a: string, b: string, sep: char)
    requires sep !in a
    ensures Split(a + [sep] + b, sep) == [a] + Split(b, sep)
  {
    SplitFront(a, [sep] + b, sep);
    assert a + [sep] + b == a + ([sep] + b);
    assert ([sep] + b)[1..] == b;
    var sb := Split([sep] + b, sep);
    assert sb == [""] + Split(b, sep);
    assert a + sb[0] == a;
  }

  /** A string without the separator is a single part. */
  lemma SplitNoSep(a: string, sep: char)
    requires sep !in a
    ensures Split(a, sep) == [a]
  {
    SplitFront(a, [], sep);
    assert a + [] == a;
  }

  /** Splitting the join of separator-free parts gives the parts back. */
  lemma {:induction false} SplitJoin(parts: seq<string>, sep: char)
    requires |parts| >= 1
    requires forall i :: 0 <= i < |parts| ==> sep !in parts[i]
    ensures Split(Join(parts, sep), sep) == parts
  {
    if |parts| == 1 {
      SplitNoSep(parts[0], sep);
    } else {
      SplitJoin(parts[1..], sep);
      SplitAtSep(parts[0], Join(parts[1..], sep), sep);
    }
  }

  /** A string splits into two or more parts exactly when it holds the separator. */
  lemma {:induction false} SplitCount(s: string, sep: char)
    ensures |Split(s, sep)| >= 2 <==> sep in s
  {
    if s != [] {
      SplitCount(s[1..], sep);
    }
  }

  /** The join of two or more parts ends with its last two parts, separated,
      and before them lies either nothing or a separator. */
  lemma {:induction false} JoinLastTwo(parts: seq<string>, sep: char)
    requires |parts| >= 2
    ensures var s := Join(parts, sep);
            var tail := parts[|parts| - 2] + [sep] + parts[|parts| - 1];
            |tail| <= |s| && s[|s| - |tail|..] == tail
            && (|parts| == 2 ==> |s| == |tail|)
            && (|parts| > 2 ==> |s| > |tail| && s[|s| - |tail| - 1] == sep)
  {
    if |parts| > 2 {
      JoinLastTwo(parts[1..], sep);
      if |parts| == 3 {
        assert Join(parts[1..], sep) == parts[1] + [sep] + parts[2];
      }
    }
  }

  /** Python's `s.rstrip(chars)`: the longest prefix of `s` that does not
      end in one of `chars`. */
  function RStrip(s: string, chars: set<char>): (r: string)
    ensures r <= s
    ensures forall i :: |r| <= i < |s| ==> s[i] in chars
    ensures r == [] || r[|r| - 1] !in chars
  {
    if s != [] && s[|s| - 1] in chars then RStrip(s[..|s| - 1], chars) else s
  }

  /** Stripping a run of `chars` off a string that ends otherwise. */
  lemma {:induction false} RStripRun(s: string, t: string, chars: set<char>)
    requires s != [] && s[|s| - 1] !in chars
    requires forall i :: 0 <= i < |t| ==> t[i] in chars
    ensures RStrip(s + t, chars) == s
  {
    if t == [] {
      assert s + t == s;
    } else {
      var u := t[..|t| - 1];
      assert (s + t)[..|s + t| - 1] == s + u;
      RStripRun(s, u, chars);
    }
  }

  /** A join ends with the last character of its last part, when there is one. */
  lemma {:induction false} JoinEndsWithLast(parts: seq<string>, sep: char)
    requires |parts| >= 1 && Last(parts) != []
    ensures var s := Join(parts, sep); s != [] && s[|s| - 1] == Last(Last(parts))
  {
    if |parts| > 1 {
      JoinEndsWithLast(parts[1..], sep);
    }
  }

  /** Stripping a run of `chars` off a join and splitting again gives the parts. */
  lemma SplitStripped(parts: seq<string>, run: string, chars: set<char>)
    requires |parts| >= 1
    requires forall i :: 0 <= i < |parts| ==> '/' !in parts[i]
    requires Last(parts) != [] && Last(Last(parts)) !in chars
    requires forall i :: 0 <= i < |run| ==> run[i] in chars
    ensures Split(RStrip(Join(parts, '/') + run, chars), '/') == parts
  {
    JoinEndsWithLast(parts, '/');
    RStripRun(Join(parts, '/'), run, chars);
    SplitJoin(parts, '/');
  }

  /** Joining one more part at the end. */
  lemma {:induction false} JoinSnoc(parts: seq<string>, x: string, sep: char)
    requires |parts| >= 1
    ensures Join(parts + [x], sep) == Join(parts, sep) + [sep] + x
  {
    if |parts| > 1 {
      assert (parts + [x])[1..] == parts[1..] + [x];
      JoinSnoc(parts[1..], x, sep);
    } else {
      assert (parts + [x])[1..] == [x];
    }
  }
}
