/** Sorting and adjacent-duplicate compaction.

    The indexer and the refpack writer call Go's `sort.Sort`, a library sort
    that is not stable.  It is modelled here by one particular sorted
    permutation, the one insertion sort yields; the properties the rest of the
    model relies on are only that the output is sorted and is a permutation of
    the input. */
module Sorting {

  /** `le` relates every two values one way or the other. */
  ghost predicate Total<T(!new)>(le: (T, T) -> bool) {
    forall a, b :: le(a, b) || le(b, a)
  }

  ghost predicate Transitive<T(!new)>(le: (T, T) -> bool) {
    forall a, b, c :: le(a, b) && le(b, c) ==> le(a, c)
  }

  /** Every earlier element is `le` every later one. */
  predicate SortedBy<T>(s: seq<T>, le: (T, T) -> bool) {
    forall i, j :: 0 <= i < j < |s| ==> le(s[i], s[j])
  }

  function Insert<T>(x: T, s: seq<T>, le: (T, T) -> bool): (r: seq<T>)
    ensures multiset(r) == multiset(s) + multiset{x}
  {
    if s == [] then [x]
    else if le(x, s[0]) then [x] + s
    else
      assert s == [s[0]] + s[1..];
      [s[0]] + Insert(x, s[1..], le)
  }

  function InsertionSort<T>(s: seq<T>, le: (T, T) -> bool): (r: seq<T>)
    ensures multiset(r) == multiset(s)
    ensures |r| == |s|
  {
    if s == [] then []
    else
      assert s == [s[0]] + s[1..];
      var r := Insert(s[0], InsertionSort(s[1..], le), le);
      assert |r| == |multiset(r)| == |multiset(s)| == |s|;
      r
  }

  lemma {:induction false} InsertSorted<T(!new)>(x: T, s: seq<T>, le: (T, T) -> bool)
    requires Total(le) && Transitive(le)
    requires SortedBy(s, le)
    ensures SortedBy(Insert(x, s, le), le)
  {
    if s != [] && !le(x, s[0]) {
      assert le(s[0], x);
      var tail := Insert(x, s[1..], le);
      InsertSorted(x, s[1..], le);
      var r := [s[0]] + tail;
      forall j | 0 < j < |r| ensures le(r[0], r[j]) {
        assert r[j] in multiset(tail);
        assert r[j] in multiset(s[1..]) + multiset{x};
        if r[j] != x {
          assert r[j] in s[1..];
          var k :| 0 <= k < |s[1..]| && s[1..][k] == r[j];
          assert s[k + 1] == r[j];
        }
      }
    }
  }

  /** The sort's output is ordered whenever `le` is a total preorder. */
  lemma {:induction false} InsertionSortSorted<T(!new)>(s: seq<T>, le: (T, T) -> bool)
    requires Total(le) && Transitive(le)
    ensures SortedBy(InsertionSort(s, le), le)
  {
    if s != [] {
      InsertionSortSorted(s[1..], le);
      InsertSorted(s[0], InsertionSort(s[1..], le), le);
    }
  }

  /** Sorting input that is already sorted leaves it as it is. */
  lemma {:induction false} InsertionSortOfSorted<T>(s: seq<T>, le: (T, T) -> bool)
    requires SortedBy(s, le)
    ensures InsertionSort(s, le) == s
  {
    if s != [] {
      InsertionSortOfSorted(s[1..], le);
      assert InsertionSort(s[1..], le) == s[1..];
      if |s| > 1 {
        assert le(s[0], s[1]);
      }
      assert [s[0]] + s[1..] == s;
    }
  }

  /** The sequence with every run of equal neighbours reduced to one element:
      the state the ahead/behind compaction loop of the indexer leaves behind. */
  function Compacted<T(==)>(s: seq<T>): seq<T>
  {
    if |s| <= 1 then s
    else if s[|s| - 1] == s[|s| - 2] then Compacted(s[..|s| - 1])
    else Compacted(s[..|s| - 1]) + [s[|s| - 1]]
  }

  predicate NoAdjacentEqual<T(==)>(s: seq<T>) {
    forall i :: 0 <= i < |s| - 1 ==> s[i] != s[i + 1]
  }

  /** Compaction keeps the last element, drops only equal neighbours, keeps
      every value and removes no value altogether. */
  lemma {:induction false} CompactedProperties<T>(s: seq<T>)
    ensures |Compacted(s)| <= |s|
    ensures |s| > 0 ==> |Compacted(s)| > 0 && Compacted(s)[|Compacted(s)| - 1] == s[|s| - 1]
    ensures forall x :: x in Compacted(s) <==> x in s
    ensures NoAdjacentEqual(Compacted(s))
  {
    if |s| > 1 {
      var init := s[..|s| - 1];
      CompactedProperties(init);
      assert s == init + [s[|s| - 1]];
      assert init[|init| - 1] == s[|s| - 2];
    }
  }

  lemma MemberOfCompacted<T>(s: seq<T>, i: nat)
    requires i < |Compacted(s)|
    ensures Compacted(s)[i] in s
  {
    CompactedProperties(s);
    assert Compacted(s)[i] in Compacted(s);
  }

  /** Compacting a sorted sequence leaves it sorted. */
  lemma {:induction false} CompactedSorted<T>(s: seq<T>, le: (T, T) -> bool)
    requires SortedBy(s, le)
    ensures SortedBy(Compacted(s), le)
  {
    if |s| > 1 {
      var init := s[..|s| - 1];
      assert SortedBy(init, le);
      CompactedSorted(init, le);
      CompactedProperties(init);
      var c := Compacted(init);
      if s[|s| - 1] != s[|s| - 2] {
        var r := c + [s[|s| - 1]];
        forall i, j | 0 <= i < j < |r| ensures le(r[i], r[j]) {
          if j == |r| - 1 {
            assert r[i] == c[i];
            MemberOfCompacted(init, i);
            var k :| 0 <= k < |init| && init[k] == r[i];
            assert s[k] == r[i];
          } else {
            assert r[i] == c[i] && r[j] == c[j];
          }
        }
      }
    }
  }

  /** Compaction does nothing to a sequence without equal neighbours. */
  lemma {:induction false} CompactedIdentity<T>(s: seq<T>)
    requires NoAdjacentEqual(s)
    ensures Compacted(s) == s
  {
    if |s| > 1 {
      var init := s[..|s| - 1];
      assert NoAdjacentEqual(init);
      CompactedIdentity(init);
      assert init + [s[|s| - 1]] == s;
    }
  }

  /** Sort, then compact: the `dedup` of the indexer for a given order. */
  function Deduped<T(==)>(s: seq<T>, le: (T, T) -> bool): seq<T> {
    Compacted(InsertionSort(s, le))
  }

  /** What deduplication promises: sorted, no equal neighbours, the same set
      of values, never longer. */
  lemma DedupedProperties<T(!new)>(s: seq<T>, le: (T, T) -> bool)
    requires Total(le) && Transitive(le)
    ensures SortedBy(Deduped(s, le), le)
    ensures NoAdjacentEqual(Deduped(s, le))
    ensures forall x :: x in Deduped(s, le) <==> x in s
    ensures |Deduped(s, le)| <= |s|
  {
    var sorted := InsertionSort(s, le);
    InsertionSortSorted(s, le);
    CompactedSorted(sorted, le);
    CompactedProperties(sorted);
    forall x ensures x in sorted <==> x in s {
      assert x in sorted <==> x in multiset(sorted);
      assert x in s <==> x in multiset(s);
    }
  }

  /** Deduplicating twice gives what deduplicating once gives. */
  lemma DedupedIdempotent<T(!new)>(s: seq<T>, le: (T, T) -> bool)
    requires Total(le) && Transitive(le)
    ensures Deduped(Deduped(s, le), le) == Deduped(s, le)
  {
    var d := Deduped(s, le);
    DedupedProperties(s, le);
    InsertionSortOfSorted(d, le);
    CompactedIdentity(d);
  }

  /** The ahead/behind loop of `dedupXrefList` and `dedupRelList`: copy the
      first element of every run of equal neighbours down to the front and cut
      the sequence after the last one copied. */
  method CompactAdjacent<T(==)>(s: seq<T>) returns (r: seq<T>)
    ensures r == Compacted(s)
  {
    var xr := s;
    var ahead, behind := 0, 0;
    while ahead != |xr|
      invariant |xr| == |s|
      invariant 0 <= behind <= ahead <= |xr|
      invariant xr[ahead..] == s[ahead..]
      invariant xr[..behind] == Compacted(s[..ahead])
      invariant 0 < ahead < |s| ==> s[ahead] != s[ahead - 1]
      invariant ahead == 0 <==> behind == 0
    {
      var entry := xr[ahead];
      assert entry == s[ahead];
      CompactedStep(s, ahead);
      xr := xr[behind := entry];
      ahead := ahead + 1;
      assert xr[..behind + 1] == Compacted(s[..ahead]);
      while ahead != |xr| && xr[ahead] == entry
        invariant behind < ahead <= |xr|
        invariant xr[ahead..] == s[ahead..]
        invariant xr[..behind + 1] == Compacted(s[..ahead])
        invariant s[ahead - 1] == entry
      {
        CompactedStep(s, ahead);
        ahead := ahead + 1;
      }
      behind := behind + 1;
    }
    assert s[..ahead] == s;
    r := xr[..behind];
  }

  /** One more element either extends the compaction or repeats its last value. */
  lemma CompactedStep<T>(s: seq<T>, k: nat)
    requires k < |s|
    ensures k == 0 ==> Compacted(s[..k + 1]) == [s[0]]
    ensures k > 0 && s[k] == s[k - 1] ==> Compacted(s[..k + 1]) == Compacted(s[..k])
    ensures k > 0 && s[k] != s[k - 1] ==> Compacted(s[..k + 1]) == Compacted(s[..k]) + [s[k]]
  {
    var p := s[..k + 1];
    assert p[..|p| - 1] == s[..k];
  }
}
