/** The line table of kythe/cs/cshtml/cshtml.go: `MakeSrcData` records where
    each line of a source file starts, and `LineNumber` finds the line of a
    byte offset by binary search over those starts. */
module LineTable {
  import opened Wrappers
  import opened Numbers

  const NEWLINE: Byte := 10

  /** `SrcData`: the file's bytes and the int32 offsets of its line starts. */
  datatype SrcData = SrcData(src: seq<Byte>, lineTable: seq<I32>)

  /** How many of the first `m` bytes are newlines. */
  function Newlines(src: seq<Byte>, m: nat): nat
    requires m <= |src|
  {
    if m == 0 then 0 else Newlines(src, m - 1) + (if src[m - 1] == NEWLINE then 1 else 0)
  }

  lemma {:induction false} NewlinesMono(src: seq<Byte>, m: nat, n: nat)
    requires m <= n <= |src|
    ensures Newlines(src, m) <= Newlines(src, n)
  {
    if m < n {
      NewlinesMono(src, m, n - 1);
    }
  }

  /** The offsets just after the newlines among the first `m` bytes, as
      int32 values. */
  function Starts(src: seq<Byte>, m: nat): (r: seq<I32>)
    requires m <= |src|
    ensures |r| == Newlines(src, m)
  {
    if m == 0 then []
    else Starts(src, m - 1) + (if src[m - 1] == NEWLINE then [Int32(m) as I32] else [])
  }

  /** The line table `MakeSrcData` builds: line 1 starts at 0, and every
      newline but one in the last byte starts a further line. */
  function Table(src: seq<Byte>): seq<I32> {
    if |src| == 0 then [0] else [0] + Starts(src, |src| - 1)
  }

  /** `MakeSrcData`: a first loop counts the lines, a second fills the table
      entry by entry. */
  method MakeSrcData(src: seq<Byte>) returns (d: SrcData)
    ensures d == SrcData(src, Table(src))
  {
    if |src| == 0 {
      return SrcData(src, [0]);
    }
    var linecount := 1;
    var i := 0;
    while i != |src| - 1
      invariant 0 <= i <= |src| - 1
      invariant linecount == 1 + Newlines(src, i)
    {
      if src[i] == NEWLINE {
        linecount := linecount + 1;
      }
      i := i + 1;
    }
    var linetable := new I32[linecount](_ => 0);
    var linei := 1;
    i := 0;
    while i != |src| - 1
      invariant 0 <= i <= |src| - 1
      invariant linei == 1 + Newlines(src, i) <= linecount
      invariant linetable[..linei] == [0] + Starts(src, i)
    {
      if src[i] == NEWLINE {
        NewlinesMono(src, i + 1, |src| - 1);
        linetable[linei] := Int32(i + 1);
        linei := linei + 1;
      }
      i := i + 1;
    }
    assert linetable[..] == linetable[..linei];
    d := SrcData(src, linetable[..]);
  }

  /** One step of `Starts`: the entries so far, and one more exactly when
      byte `m - 1` is a newline. */
  lemma StartsStep(src: seq<Byte>, m: nat)
    requires 0 < m <= |src| && m < TWO_31
    ensures Starts(src, m - 1) == Starts(src, m)[..Newlines(src, m - 1)]
    ensures src[m - 1] == NEWLINE ==> Starts(src, m)[Newlines(src, m - 1)] == m
    ensures src[m - 1] != NEWLINE ==> Starts(src, m) == Starts(src, m - 1)
  {
  }

  /** Entry `k` is the offset just after the `k`-th newline (counting from
      0), within the first `m` bytes, while the offsets fit in an int32. */
  lemma {:induction false} StartsAfterNewline(src: seq<Byte>, m: nat)
    requires m <= |src| && m < TWO_31
    ensures forall k :: 0 <= k < |Starts(src, m)| ==>
      && 1 <= Starts(src, m)[k] <= m
      && src[Starts(src, m)[k] - 1] == NEWLINE
      && Newlines(src, Starts(src, m)[k] - 1) == k
  {
    if m > 0 {
      StartsAfterNewline(src, m - 1);
      StartsStep(src, m);
      var s, t := Starts(src, m - 1), Starts(src, m);
      forall k | 0 <= k < |t|
        ensures 1 <= t[k] <= m && src[t[k] - 1] == NEWLINE && Newlines(src, t[k] - 1) == k
      {
        if k < |s| {
          assert t[k] == s[k];
        }
      }
    }
  }

  /** The entries grow strictly. */
  lemma {:induction false} StartsIncreasing(src: seq<Byte>, m: nat)
    requires m <= |src| && m < TWO_31
    ensures forall k, l :: 0 <= k < l < |Starts(src, m)| ==> Starts(src, m)[k] < Starts(src, m)[l]
  {
    if m > 0 {
      StartsIncreasing(src, m - 1);
      StartsAfterNewline(src, m - 1);
      StartsStep(src, m);
      var s, t := Starts(src, m - 1), Starts(src, m);
      forall k, l | 0 <= k < l < |t| ensures t[k] < t[l] {
        assert t[k] == s[k];
        if l < |s| {
          assert t[l] == s[l];
        }
      }
    }
  }

  /** Every newline among the first `m` bytes is followed by an entry. */
  lemma {:induction false} StartsComplete(src: seq<Byte>, m: nat)
    requires m <= |src| && m < TWO_31
    ensures forall p :: 0 <= p < m && src[p] == NEWLINE ==>
      Newlines(src, p) < |Starts(src, m)| && Starts(src, m)[Newlines(src, p)] == p + 1
  {
    if m > 0 {
      StartsComplete(src, m - 1);
      StartsStep(src, m);
      var s, t := Starts(src, m - 1), Starts(src, m);
      forall p | 0 <= p < m && src[p] == NEWLINE
        ensures Newlines(src, p) < |t| && t[Newlines(src, p)] == p + 1
      {
        if p < m - 1 {
          NewlinesMono(src, p + 1, m - 1);
          assert t[Newlines(src, p)] == s[Newlines(src, p)];
        }
      }
    }
  }

  predicate Increasing(t: seq<int>) {
    forall k, l :: 0 <= k < l < |t| ==> t[k] < t[l]
  }

  /** What a line table of a non-empty source holds (for a file shorter
      than 2^31 bytes): it starts at 0, grows strictly and stays below the
      file's length; it has one entry more than there are newlines before
      the last byte, and entry `k` follows the `k`-th of them. */
  ghost predicate LineStarts(src: seq<Byte>, t: seq<int>)
    requires 0 < |src|
  {
    && |t| == 1 + Newlines(src, |src| - 1)
    && t[0] == 0 && Increasing(t)
    && (forall k :: 0 <= k < |t| ==> t[k] < |src|)
    && (forall k :: 1 <= k < |t| ==>
         && 1 <= t[k] && src[t[k] - 1] == NEWLINE && Newlines(src, t[k] - 1) == k - 1)
  }

  /** The table `MakeSrcData` builds is such a table. */
  lemma TableFacts(src: seq<Byte>)
    requires 0 < |src| <= TWO_31
    ensures LineStarts(src, Table(src))
  {
    var m := |src| - 1;
    StartsAfterNewline(src, m);
    StartsIncreasing(src, m);
    ConsStarts(src, Starts(src, m), Table(src));
  }

  /** Every newline before the last byte is followed by an entry of the
      table. */
  lemma TableComplete(src: seq<Byte>)
    requires 0 < |src| <= TWO_31
    ensures forall p :: 0 <= p < |src| - 1 && src[p] == NEWLINE ==>
      Newlines(src, p) + 1 < |Table(src)| && Table(src)[Newlines(src, p) + 1] == p + 1
  {
    var m := |src| - 1;
    StartsComplete(src, m);
    var st, t := Starts(src, m), Table(src);
    forall p | 0 <= p < |src| - 1 && src[p] == NEWLINE
      ensures Newlines(src, p) + 1 < |t| && t[Newlines(src, p) + 1] == p + 1
    {
      assert t[Newlines(src, p) + 1] == st[Newlines(src, p)];
    }
  }

  /** Offset `v` follows the `k`-th newline (counting from 0) and lies
      before the last byte. */
  ghost predicate StartOk(src: seq<Byte>, v: int, k: nat) {
    1 <= v <= |src| - 1 && src[v - 1] == NEWLINE && Newlines(src, v - 1) == k
  }

  lemma ConsStarts(src: seq<Byte>, st: seq<I32>, t: seq<I32>)
    requires 0 < |src| && t == [0] + st && |st| == Newlines(src, |src| - 1)
    requires forall k :: 0 <= k < |st| ==> StartOk(src, st[k], k)
    requires forall k, l :: 0 <= k < l < |st| ==> st[k] < st[l]
    ensures LineStarts(src, t)
  {
    ConsEntries(src, st, t);
    ConsIncreasing(st, t);
  }

  lemma ConsEntries(src: seq<Byte>, st: seq<I32>, t: seq<I32>)
    requires 0 < |src| && t == [0] + st
    requires forall k :: 0 <= k < |st| ==> StartOk(src, st[k], k)
    ensures forall k :: 0 <= k < |t| ==> t[k] < |src|
    ensures forall k :: 1 <= k < |t| ==>
      1 <= t[k] && src[t[k] - 1] == NEWLINE && Newlines(src, t[k] - 1) == k - 1
  {
    forall k | 0 <= k < |t| ensures t[k] < |src| {
      if k > 0 {
        assert t[k] == st[k - 1] && StartOk(src, st[k - 1], k - 1);
      }
    }
    forall k | 1 <= k < |t|
      ensures 1 <= t[k] && src[t[k] - 1] == NEWLINE && Newlines(src, t[k] - 1) == k - 1
    {
      assert t[k] == st[k - 1] && StartOk(src, st[k - 1], k - 1);
    }
  }

  lemma ConsIncreasing(st: seq<I32>, t: seq<I32>)
    requires t == [0] + st && (forall k :: 0 <= k < |st| ==> 1 <= st[k])
    requires forall k, l :: 0 <= k < l < |st| ==> st[k] < st[l]
    ensures Increasing(t)
  {
    forall k, l | 0 <= k < l < |t| ensures t[k] < t[l] {
      assert t[l] == st[l - 1];
      if k > 0 {
        assert t[k] == st[k - 1] && st[k - 1] < st[l - 1];
      }
    }
  }

  /** The index of the last entry at or below `off`, or 0 when there is
      none. */
  function Last(t: seq<int>, off: int): (r: nat)
    requires |t| > 0
    ensures r < |t| && (r == 0 || t[r] <= off)
    ensures forall j :: r < j < |t| ==> t[j] > off
  {
    if |t| == 1 then 0
    else if t[|t| - 1] <= off then |t| - 1
    else Last(t[..|t| - 1], off)
  }

  predicate Sorted(t: seq<int>) {
    forall k, l :: 0 <= k <= l < |t| ==> t[k] <= t[l]
  }

  /** `n` is a line number the search can stop at: line `n`'s start is at
      or below `off` (or `n` is 1) and the next line's start is above it (or
      `n` is the last line). */
  predicate Boundary(t: seq<int>, off: int, n: nat) {
    && 1 <= n <= |t|
    && (n == 1 || t[n - 1] <= off)
    && (n == |t| || t[n] > off)
  }

  /** On a sorted table there is one boundary: one plus `Last`. */
  lemma BoundaryUnique(t: seq<int>, off: int, n: nat)
    requires Sorted(t) && Boundary(t, off, n)
    ensures n == Last(t, off) + 1
  {
  }

  /** `LineNumber`: `None` where Go panics, on an empty table.  Otherwise the
      result is a boundary of the table for any table, and the line whose
      start is the last one at or below the offset for a sorted one. */
  method LineNumber(d: SrcData, byteOffset: I32) returns (r: Option<nat>)
    ensures r.None? <==> |d.lineTable| == 0
    ensures r.Some? ==> Boundary(d.lineTable, byteOffset, r.value)
    ensures r.Some? && Sorted(d.lineTable) ==> r.value == Last(d.lineTable, byteOffset) + 1
  {
    var t := d.lineTable;
    if |t| == 0 {
      return None;
    }
    var min, max := 0, |t| - 1;
    while min != max
      invariant 0 <= min <= max < |t|
      invariant min == 0 || t[min] <= byteOffset
      invariant max == |t| - 1 || t[max + 1] > byteOffset
      decreases max - min
    {
      var index := (min + max + 1) / 2;
      var byteindex := t[index];
      if byteindex > byteOffset {
        max := index - 1;
      } else {
        min := index;
      }
    }
    r := Some(min + 1);
    if Sorted(t) {
      BoundaryUnique(t, byteOffset, min + 1);
    }
  }

  /** The line of an offset only grows with the offset. */
  lemma LastMono(t: seq<int>, a: int, b: int)
    requires |t| > 0 && a <= b
    ensures Last(t, a) <= Last(t, b)
  {
  }

  /** An offset from the start of line `k + 1` to just before the next
      line's start is on line `k + 1`. */
  lemma LastWithin(t: seq<int>, k: nat, off: int)
    requires Increasing(t) && k < |t| && t[k] <= off && (k + 1 == |t| || off < t[k + 1])
    ensures Last(t, off) == k
  {
    assert Sorted(t) by {
      forall i, j | 0 <= i <= j < |t| ensures t[i] <= t[j] {
        if i < j {
          assert t[i] < t[j];
        }
      }
    }
    BoundaryUnique(t, off, k + 1);
  }

  /** End to end: in a file shorter than 2^31 bytes, the line of a byte
      offset inside the file is one plus the number of newlines before it. */
  lemma LineOfOffset(src: seq<Byte>, off: nat)
    requires off < |src| <= TWO_31
    ensures Last(Table(src), off) + 1 == 1 + Newlines(src, off)
  {
    TableFacts(src);
    LineOfStarts(src, Table(src), off);
  }

  lemma LineOfStarts(src: seq<Byte>, t: seq<int>, off: nat)
    requires off < |src| && LineStarts(src, t)
    ensures Last(t, off) == Newlines(src, off)
  {
    var k := Newlines(src, off);
    NewlinesMono(src, off, |src| - 1);
    if k > 0 {
      var p := t[k] - 1;
      if p >= off {
        NewlinesMono(src, off, p);
      }
    }
    if k + 1 < |t| {
      var q := t[k + 1] - 1;
      if q < off {
        NewlinesMono(src, q + 1, off);
      }
    }
    LastWithin(t, k, off);
  }

  /** The bytes of an ASCII string. */
  function Ascii(s: string): (r: seq<Byte>)
    requires forall i :: 0 <= i < |s| ==> s[i] < 128 as char
    ensures |r| == |s| && forall i :: 0 <= i < |s| ==> r[i] == s[i] as int
  {
    seq(|s|, i requires 0 <= i < |s| => s[i] as int)
  }

  /** The newline counts of the first test source, "line 1\nline 2\n". */
  lemma FirstSourceNewlines()
    ensures |Ascii("line 1\nline 2\n")| == 14
    ensures Newlines(Ascii("line 1\nline 2\n"), 0) == 0
    ensures Newlines(Ascii("line 1\nline 2\n"), 6) == 0
    ensures Newlines(Ascii("line 1\nline 2\n"), 7) == 1
    ensures Newlines(Ascii("line 1\nline 2\n"), 13) == 1
  {
    var src := Ascii("line 1\nline 2\n");
    assert Newlines(src, 6) == 0 by {
      assert Newlines(src, 2) == 0;
      assert Newlines(src, 4) == 0;
    }
    assert Newlines(src, 13) == 1 by {
      assert Newlines(src, 7) == 1;
      assert Newlines(src, 9) == 1;
      assert Newlines(src, 11) == 1;
    }
  }

  /** The test of `LineNumber` on its first source: offsets 0 and 6 are on
      line 1, offsets 7 and 13 on line 2. */
  method TestFirstSource() returns (got: seq<Option<nat>>)
    ensures got == [Some(1), Some(1), Some(2), Some(2)]
  {
    var src := Ascii("line 1\nline 2\n");
    var d := MakeSrcData(src);
    FirstSourceNewlines();
    TableFacts(src);
    assert Sorted(d.lineTable);
    LineOfOffset(src, 0);
    LineOfOffset(src, 6);
    LineOfOffset(src, 7);
    LineOfOffset(src, 13);
    var a := LineNumber(d, 0);
    var b := LineNumber(d, 6);
    var c := LineNumber(d, 7);
    var e := LineNumber(d, 13);
    got := [a, b, c, e];
  }
}
