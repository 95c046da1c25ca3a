/** Sequence and string helpers standing in for the parts of Go's `strings`
    package that the indexer and the search service use: Index, LastIndex,
    HasPrefix, HasSuffix, Split, ToLower (ASCII only). */
module Seqs {

  /** `p` occurs in `s` starting at position `i`. */
  predicate OccursAt<T(==)>(s: seq<T>, p: seq<T>, i: int) {
    0 <= i && i + |p| <= |s| && s[i..i + |p|] == p
  }

  /** First occurrence of `p` in `s` at or after `i`, or -1. */
  function IndexFrom<T(==)>(s: seq<T>, p: seq<T>, i: nat): (r: int)
    decreases |s| - i
    ensures r == -1 || (i <= r && OccursAt(s, p, r))
    ensures r == -1 ==> forall j :: i <= j ==> !OccursAt(s, p, j)
    ensures r != -1 ==> forall j :: i <= j < r ==> !OccursAt(s, p, j)
  {
    if i + |p| > |s| then -1
    else if s[i..i + |p|] == p then i
    else IndexFrom(s, p, i + 1)
  }

  /** strings.Index: the first occurrence of `p` in `s`, or -1 when there is none. */
  function IndexOf<T(==)>(s: seq<T>, p: seq<T>): (r: int)
    ensures r == -1 <==> forall j :: !OccursAt(s, p, j)
    ensures r != -1 ==> OccursAt(s, p, r) && forall j :: 0 <= j < r ==> !OccursAt(s, p, j)
  {
    IndexFrom(s, p, 0)
  }

  /** Last occurrence of `p` in `s` at or before `i`, or -1. */
  function LastIndexFrom<T(==)>(s: seq<T>, p: seq<T>, i: int): (r: int)
    decreases i + 1
    ensures r == -1 || (r <= i && OccursAt(s, p, r))
    ensures r == -1 ==> forall j :: j <= i ==> !OccursAt(s, p, j)
    ensures r != -1 ==> forall j :: r < j <= i ==> !OccursAt(s, p, j)
  {
    if i < 0 then -1
    else if OccursAt(s, p, i) then i
    else LastIndexFrom(s, p, i - 1)
  }

  /** strings.LastIndex: the last occurrence of `p` in `s`, or -1 when there is none. */
  function LastIndexOf<T(==)>(s: seq<T>, p: seq<T>): (r: int)
    ensures r == -1 <==> forall j :: !OccursAt(s, p, j)
    ensures r != -1 ==> OccursAt(s, p, r) && forall j :: r < j ==> !OccursAt(s, p, j)
  {
    LastIndexFrom(s, p, |s| - |p|)
  }

  predicate HasPrefix<T(==)>(s: seq<T>, p: seq<T>) {
    |p| <= |s| && s[..|p|] == p
  }

  predicate HasSuffix<T(==)>(s: seq<T>, p: seq<T>) {
    |p| <= |s| && s[|s| - |p|..] == p
  }

  /** strings.Join: `parts` with `sep` between neighbours. */
  function Join<T>(parts: seq<seq<T>>, sep: seq<T>): seq<T>
    requires |parts| >= 1
  {
    if |parts| == 1 then parts[0] else parts[0] + sep + Join(parts[1..], sep)
  }

  /** strings.Split with a one-element separator: never empty, and the
      parts are the maximal runs between separators. */
  function Split<T(==)>(s: seq<T>, sep: T): (parts: seq<seq<T>>)
    ensures |parts| >= 1
  {
    if s == [] then [[]]
    else
      var rest := Split(s[1..], sep);
      if s[0] == sep then [[]] + rest else [[s[0]] + rest[0]] + rest[1..]
  }

  lemma {:induction false} JoinSplit<T>(s: seq<T>, sep: T)
    ensures Join(Split(s, sep), [sep]) == s
    ensures forall k :: 0 <= k < |Split(s, sep)| ==> sep !in Split(s, sep)[k]
  {
    if s != [] {
      JoinSplit(s[1..], sep);
      var rest := Split(s[1..], sep);
      if s[0] == sep {
        assert Split(s, sep) == [[]] + rest;
        assert Split(s, sep)[1..] == rest;
      } else {
        var parts := Split(s, sep);
        assert parts == [[s[0]] + rest[0]] + rest[1..];
        if |rest| == 1 {
          assert Join(parts, [sep]) == [s[0]] + rest[0];
        } else {
          assert parts[1..] == rest[1..];
          assert Join(rest, [sep]) == rest[0] + [sep] + Join(rest[1..], [sep]);
          assert Join(parts, [sep]) == [s[0]] + rest[0] + [sep] + Join(rest[1..], [sep]);
        }
        forall k | 0 <= k < |parts| ensures sep !in parts[k] {
          if k > 0 { assert parts[k] == rest[k]; }
        }
      }
    }
  }

  /** Splitting is the inverse of joining when no part holds the separator. */
  lemma {:induction false} SplitJoin<T>(parts: seq<seq<T>>, sep: T)
    requires |parts| >= 1
    requires forall k :: 0 <= k < |parts| ==> sep !in parts[k]
    ensures Split(Join(parts, [sep]), sep) == parts
  {
    if |parts| == 1 {
      SplitNoSep(parts[0], sep);
    } else {
      SplitJoin(parts[1..], sep);
      SplitPrefix(parts[0], sep, Join(parts[1..], [sep]));
      assert [parts[0]] + parts[1..] == parts;
    }
  }

  lemma {:induction false} SplitNoSep<T>(s: seq<T>, sep: T)
    requires sep !in s
    ensures Split(s, sep) == [s]
  {
    if s != [] {
      SplitNoSep(s[1..], sep);
      assert [s[0]] + s[1..] == s;
    }
  }

  lemma {:induction false} SplitPrefix<T>(a: seq<T>, sep: T, b: seq<T>)
    requires sep !in a
    ensures Split(a + [sep] + b, sep) == [a] + Split(b, sep)
  {
    if a == [] {
      assert a + [sep] + b == [sep] + b;
      assert ([sep] + b)[1..] == b;
    } else {
      SplitPrefix(a[1..], sep, b);
      assert (a + [sep] + b)[1..] == a[1..] + [sep] + b;
      assert [a[0]] + a[1..] == a;
    }
  }

  /** The images under `f` of the elements of `s` that `keep` holds of, in
      order. */
  function FilterMap<T, U>(s: seq<T>, keep: T -> bool, f: T -> U): seq<U> {
    if s == [] then []
    else FilterMap(s[..|s| - 1], keep, f) + if keep(s[|s| - 1]) then [f(s[|s| - 1])] else []
  }

  lemma {:induction false} FilterMapMembers<T, U>(s: seq<T>, keep: T -> bool, f: T -> U, x: U)
    ensures x in FilterMap(s, keep, f) <==> exists k :: 0 <= k < |s| && keep(s[k]) && x == f(s[k])
  {
    if s != [] {
      var init := s[..|s| - 1];
      FilterMapMembers(init, keep, f, x);
      if x in FilterMap(init, keep, f) {
        var k :| 0 <= k < |init| && keep(init[k]) && x == f(init[k]);
        assert s[k] == init[k];
      }
      if exists k :: 0 <= k < |s| && keep(s[k]) && x == f(s[k]) {
        var k :| 0 <= k < |s| && keep(s[k]) && x == f(s[k]);
        if k < |init| {
          assert init[k] == s[k];
        }
      }
    }
  }

  function Reverse<T>(s: seq<T>): (r: seq<T>)
    ensures |r| == |s|
  {
    if s == [] then [] else Reverse(s[1..]) + [s[0]]
  }

  /** ASCII lower-casing, the part of strings.ToLower the model covers. */
  function LowerChar(c: char): char {
    if 'A' <= c <= 'Z' then (c as int + 32) as char else c
  }

  function ToLower(s: string): (r: string)
    ensures |r| == |s|
    ensures forall i :: 0 <= i < |s| ==> r[i] == LowerChar(s[i])
  {
    seq(|s|, i requires 0 <= i < |s| => LowerChar(s[i]))
  }

  predicate IsDigit(c: char) {
    '0' <= c <= '9'
  }
}
