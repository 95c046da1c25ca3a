/** The refpack container of kythe/cs/refpack/refpack.go: one payload of
    concatenated blobs, each found by name through a sorted key table.

    Layout of a written pack, every number a little-endian uint32:
      key count, total name length,
      one (name offset, start, end) triple per key, sorted by name,
      the total name length again (the end offset of the last name),
      the names in key order,
      the payload. */
module RefPack {
  import opened Wrappers
  import opened Numbers
  import opened Sorting

  // ---------------------------------------------------------------------
  // Little-endian uint32 (encoding/binary.LittleEndian)

  /** `PutUint32`'s four bytes, least significant first. */
  function LE32(v: U32): (r: seq<Byte>)
    ensures |r| == 4
  {
    [v % 256, v / 256 % 256, v / 256 / 256 % 256, v / 256 / 256 / 256]
  }

  /** `Uint32(b[p:])`. */
  function U32At(b: seq<Byte>, p: nat): U32
    requires p + 4 <= |b|
  {
    b[p] as int + 0x100 * (b[p + 1] as int) + 0x1_0000 * (b[p + 2] as int) + 0x100_0000 * (b[p + 3] as int)
  }

  /** Reading four bytes back gives the number written there. */
  lemma ReadLE32(b: seq<Byte>, p: nat, v: U32)
    requires p + 4 <= |b| && b[p..p + 4] == LE32(v)
    ensures U32At(b, p) == v
  {
    var q1 := v / 256;
    var q2 := q1 / 256;
    var q3 := q2 / 256;
    assert b[p] == b[p..p + 4][0] && b[p + 1] == b[p..p + 4][1];
    assert b[p + 2] == b[p..p + 4][2] && b[p + 3] == b[p..p + 4][3];
    assert v == v % 256 + 256 * q1;
    assert q1 == q1 % 256 + 256 * q2;
    assert q2 == q2 % 256 + 256 * q3;
  }

  // ---------------------------------------------------------------------
  // Names and their order (Go's string `<` and bytes.Compare)

  /** `bytes.Compare`: -1, 0 or 1 as `a` is before, equal to or after `b`
      in byte-wise lexicographic order. */
  function Compare(a: seq<Byte>, b: seq<Byte>): (c: int)
    ensures -1 <= c <= 1
    ensures c == 0 <==> a == b
  {
    if a == [] then (if b == [] then 0 else -1)
    else if b == [] then 1
    else if a[0] < b[0] then -1
    else if a[0] > b[0] then 1
    else
      assert a == [a[0]] + a[1..] && b == [b[0]] + b[1..];
      Compare(a[1..], b[1..])
  }

  lemma {:induction false} CompareFlip(a: seq<Byte>, b: seq<Byte>)
    ensures Compare(b, a) == -Compare(a, b)
  {
    if a != [] && b != [] && a[0] == b[0] {
      CompareFlip(a[1..], b[1..]);
    }
  }

  /** The order is transitive, strictly so when either step is strict. */
  lemma {:induction false} CompareTrans(a: seq<Byte>, b: seq<Byte>, c: seq<Byte>)
    requires Compare(a, b) <= 0 && Compare(b, c) <= 0
    ensures Compare(a, c) <= 0
    ensures Compare(a, b) < 0 || Compare(b, c) < 0 ==> Compare(a, c) < 0
  {
    if a != [] && b != [] && c != [] && a[0] == b[0] == c[0] {
      CompareTrans(a[1..], b[1..], c[1..]);
    }
  }

  /** `byName.Less` turned into the order a sorted key table is in. */
  datatype Key = Key(name: seq<Byte>, startByte: U32, endByte: U32)

  predicate KeyLe(x: Key, y: Key) {
    Compare(x.name, y.name) <= 0
  }

  lemma KeyLeIsOrder()
    ensures Total(KeyLe) && Transitive(KeyLe)
  {
    forall x: Key, y: Key ensures KeyLe(x, y) || KeyLe(y, x) {
      CompareFlip(x.name, y.name);
    }
    forall x: Key, y: Key, z: Key | KeyLe(x, y) && KeyLe(y, z) ensures KeyLe(x, z) {
      CompareTrans(x.name, y.name, z.name);
    }
  }

  // ---------------------------------------------------------------------
  // The layout written by WriteTo

  function NamesLen(ks: seq<Key>): nat {
    if ks == [] then 0 else NamesLen(ks[..|ks| - 1]) + |ks[|ks| - 1].name|
  }

  /** The names, concatenated in key order. */
  function Names(ks: seq<Key>): (r: seq<Byte>)
    ensures |r| == NamesLen(ks)
  {
    if ks == [] then [] else Names(ks[..|ks| - 1]) + ks[|ks| - 1].name
  }

  function Triple(off: U32, k: Key): seq<Byte> {
    LE32(off) + LE32(k.startByte) + LE32(k.endByte)
  }

  /** The key table: each key's name offset is the total length of the
      names before it. */
  function Table(ks: seq<Key>): (r: seq<Byte>)
    ensures |r| == 12 * |ks|
  {
    if ks == [] then []
    else
      var init := ks[..|ks| - 1];
      Table(init) + Triple(Uint32(NamesLen(init)), ks[|ks| - 1])
  }

  /** What the reader keeps after the first 8 bytes: table, sentinel, names. */
  function Header(ks: seq<Key>): seq<Byte> {
    Table(ks) + LE32(Uint32(NamesLen(ks))) + Names(ks)
  }

  /** The bytes WriteTo emits for sorted keys `ks` and the buffered payload. */
  function Image(ks: seq<Key>, payload: seq<Byte>): seq<Byte> {
    LE32(Uint32(|ks|)) + LE32(Uint32(NamesLen(ks))) + Header(ks) + payload
  }

  lemma NamesLenStep(ks: seq<Key>, i: nat)
    requires i < |ks|
    ensures NamesLen(ks[..i + 1]) == NamesLen(ks[..i]) + |ks[i].name|
    ensures Names(ks[..i + 1]) == Names(ks[..i]) + ks[i].name
  {
    assert ks[..i + 1][..i] == ks[..i];
  }

  lemma {:induction false} NamesLenPrefix(ks: seq<Key>, i: nat)
    requires i <= |ks|
    ensures NamesLen(ks[..i]) <= NamesLen(ks)
  {
    if i < |ks| {
      NamesLenPrefix(ks[..|ks| - 1], i);
      assert ks[..|ks| - 1][..i] == ks[..i];
      assert ks[..|ks|] == ks;
    } else {
      assert ks[..i] == ks;
    }
  }

  /** Triple `i` of the table holds the offset of name `i`, its start and end. */
  lemma {:induction false} TableAt(ks: seq<Key>, i: nat)
    requires i < |ks|
    ensures Table(ks)[12 * i..12 * i + 12] == Triple(Uint32(NamesLen(ks[..i])), ks[i])
  {
    var n := |ks|;
    var init := ks[..n - 1];
    if i < n - 1 {
      TableAt(init, i);
      assert init[..i] == ks[..i];
      assert Table(ks)[12 * i..12 * i + 12] == Table(init)[12 * i..12 * i + 12];
    }
  }

  /** Name `i` sits at its offset in the names part. */
  lemma {:induction false} NamesAt(ks: seq<Key>, i: nat)
    requires i < |ks|
    ensures NamesLen(ks[..i]) + |ks[i].name| <= NamesLen(ks)
    ensures Names(ks)[NamesLen(ks[..i])..NamesLen(ks[..i]) + |ks[i].name|] == ks[i].name
  {
    var n := |ks|;
    var init := ks[..n - 1];
    if i < n - 1 {
      NamesAt(init, i);
      assert init[..i] == ks[..i];
      assert Names(ks)[NamesLen(ks[..i])..NamesLen(ks[..i]) + |ks[i].name|]
          == Names(init)[NamesLen(ks[..i])..NamesLen(ks[..i]) + |ks[i].name|];
    }
  }

  // ---------------------------------------------------------------------
  // What a header must look like for the name search to be meaningful

  /** The name offset stored in triple `i` (for `i == k`, the sentinel). */
  function OffAt(h: seq<Byte>, i: nat): U32
    requires 12 * i + 4 <= |h|
  {
    U32At(h, 12 * i)
  }

  function StartAt(h: seq<Byte>, i: nat): U32
    requires 12 * i + 8 <= |h|
  {
    U32At(h, 12 * i + 4)
  }

  function EndAt(h: seq<Byte>, i: nat): U32
    requires 12 * i + 12 <= |h|
  {
    U32At(h, 12 * i + 8)
  }

  /** The table's offsets lie inside the header and do not go down. */
  ghost predicate OffsetsOk(h: seq<Byte>, k: nat) {
    && 12 * k + 4 <= |h| < TWO_32
    && (forall i :: 0 <= i <= k ==> 12 * k + 4 + OffAt(h, i) <= |h|)
    && (forall i :: 0 <= i < k ==> OffAt(h, i) <= OffAt(h, i + 1))
  }

  /** Name `i`: the bytes between its offset and the next (empty when the
      offsets do not delimit a part of the header). */
  ghost function NameAt(h: seq<Byte>, k: nat, i: nat): seq<Byte> {
    if 12 * (i + 1) + 4 <= |h| && 12 * k + 4 + OffAt(h, i) <= 12 * k + 4 + OffAt(h, i + 1) <= |h|
    then h[12 * k + 4 + OffAt(h, i)..12 * k + 4 + OffAt(h, i + 1)]
    else []
  }

  /** A header whose search finds what its table holds: offsets in order and
      names sorted. */
  ghost predicate WellFormed(h: seq<Byte>, k: nat) {
    && OffsetsOk(h, k)
    && forall i, j :: 0 <= i < j < k ==> Compare(NameAt(h, k, i), NameAt(h, k, j)) <= 0
  }

  lemma SliceLeft(a: seq<Byte>, b: seq<Byte>, lo: nat, hi: nat)
    requires lo <= hi <= |a|
    ensures (a + b)[lo..hi] == a[lo..hi]
  {
  }

  /** Triple `i` of a header, or nothing when the header is too short. */
  function Slot(h: seq<Byte>, i: nat): (r: seq<Byte>)
    ensures 12 * i + 12 <= |h| ==> r == h[12 * i..12 * i + 12]
  {
    if 12 * i + 12 <= |h| then h[12 * i..12 * i + 12] else []
  }

  /** The bytes of a header as WriteTo lays them out, part by part: triple
      `i` holds the offset of name `i` (the total length of the names before
      it), the sentinel follows the table, then come the names. */
  ghost predicate Laid(h: seq<Byte>, ks: seq<Key>) {
    && |h| == 12 * |ks| + 4 + NamesLen(ks)
    && (forall i {:trigger Slot(h, i)} :: 0 <= i < |ks| ==> Slot(h, i) == Triple(Uint32(NamesLen(ks[..i])), ks[i]))
    && h[12 * |ks|..12 * |ks| + 4] == LE32(Uint32(NamesLen(ks)))
    && h[12 * |ks| + 4..] == Names(ks)
  }

  /** The header WriteTo emits is laid out so. */
  lemma HeaderLaid(ks: seq<Key>)
    ensures Laid(Header(ks), ks)
  {
    var tb := Table(ks);
    var sentinel := LE32(Uint32(NamesLen(ks)));
    var rest := sentinel + Names(ks);
    var h := Header(ks);
    assert h == tb + rest;
    forall i | 0 <= i < |ks| ensures Slot(h, i) == Triple(Uint32(NamesLen(ks[..i])), ks[i]) {
      TableAt(ks, i);
      SliceLeft(tb, rest, 12 * i, 12 * i + 12);
    }
    PartAt(h, tb, rest, 0, 4, sentinel);
    assert h == (tb + sentinel) + Names(ks);
  }

  lemma TripleRead(h: seq<Byte>, p: nat, off: U32, k: Key)
    requires p + 12 <= |h| && h[p..p + 12] == Triple(off, k)
    ensures U32At(h, p) == off && U32At(h, p + 4) == k.startByte && U32At(h, p + 8) == k.endByte
  {
    var x, y, z := LE32(off), LE32(k.startByte), LE32(k.endByte);
    PartAt(h[p..p + 12], [], x + y + z, 0, 4, x);
    PartAt(h[p..p + 12], x, y + z, 0, 4, y);
    PartAt(h[p..p + 12], x + y, z, 0, 4, z);
    SubSlice(h, p, 12, 0, 4);
    SubSlice(h, p, 12, 4, 8);
    SubSlice(h, p, 12, 8, 12);
    ReadLE32(h, p, off);
    ReadLE32(h, p + 4, k.startByte);
    ReadLE32(h, p + 8, k.endByte);
  }

  lemma SubSlice(h: seq<Byte>, p: nat, len: nat, lo: nat, hi: nat)
    requires p + len <= |h| && lo <= hi <= len
    ensures h[p + lo..p + hi] == h[p..p + len][lo..hi]
  {
    var x, y := h[p + lo..p + hi], h[p..p + len][lo..hi];
    forall j | 0 <= j < |x| ensures x[j] == y[j] {
    }
  }

  lemma PartAt(h: seq<Byte>, front: seq<Byte>, back: seq<Byte>, lo: nat, hi: nat, w: seq<Byte>)
    requires h == front + back && lo <= hi <= |back| && back[lo..hi] == w
    ensures h[|front| + lo..|front| + hi] == w
  {
  }

  lemma SuffixPart(h: seq<Byte>, p: nat, back: seq<Byte>, lo: nat, hi: nat)
    requires p <= |h| && h[p..] == back && lo <= hi <= |back|
    ensures h[p + lo..p + hi] == back[lo..hi]
  {
    var x, y := h[p + lo..p + hi], back[lo..hi];
    forall j | 0 <= j < |x| ensures x[j] == y[j] {
      assert x[j] == h[p..][lo + j];
    }
  }

  /** Triple `i` of a laid-out header reads back as key `i`'s name offset,
      start and end. */
  lemma LaidTriple(h: seq<Byte>, ks: seq<Key>, i: nat)
    requires Laid(h, ks) && |h| < TWO_32 && i < |ks|
    ensures OffAt(h, i) == NamesLen(ks[..i])
    ensures StartAt(h, i) == ks[i].startByte && EndAt(h, i) == ks[i].endByte
  {
    NamesLenPrefix(ks, i);
    assert Slot(h, i) == Triple(Uint32(NamesLen(ks[..i])), ks[i]);
    TripleRead(h, 12 * i, NamesLen(ks[..i]), ks[i]);
  }

  /** The sentinel reads back as the total name length. */
  lemma LaidSentinel(h: seq<Byte>, ks: seq<Key>)
    requires Laid(h, ks) && |h| < TWO_32
    ensures OffAt(h, |ks|) == NamesLen(ks)
  {
    ReadLE32(h, 12 * |ks|, NamesLen(ks));
  }

  /** The offset after name `i` (the next triple's, or the sentinel) is where
      name `i` ends. */
  lemma LaidNext(h: seq<Byte>, ks: seq<Key>, i: nat)
    requires Laid(h, ks) && |h| < TWO_32 && i < |ks|
    ensures OffAt(h, i + 1) == NamesLen(ks[..i]) + |ks[i].name|
  {
    NamesLenStep(ks, i);
    if i + 1 < |ks| {
      LaidTriple(h, ks, i + 1);
    } else {
      assert ks[..i + 1] == ks;
      LaidSentinel(h, ks);
    }
  }

  lemma NameAtIs(h: seq<Byte>, k: nat, i: nat, lo: nat, hi: nat, w: seq<Byte>)
    requires 12 * (i + 1) + 4 <= |h| && OffAt(h, i) == lo && OffAt(h, i + 1) == hi
    requires lo <= hi && 12 * k + 4 + hi <= |h| && h[12 * k + 4 + lo..12 * k + 4 + hi] == w
    ensures NameAt(h, k, i) == w
  {
  }

  /** Name `i` of a laid-out header, as the reader delimits it, is key `i`'s. */
  lemma LaidName(h: seq<Byte>, ks: seq<Key>, i: nat)
    requires Laid(h, ks) && |h| < TWO_32 && i < |ks|
    ensures NameAt(h, |ks|, i) == ks[i].name
  {
    LaidTriple(h, ks, i);
    LaidNext(h, ks, i);
    NamesAt(ks, i);
    var lo := NamesLen(ks[..i]);
    var hi := lo + |ks[i].name|;
    SuffixPart(h, 12 * |ks| + 4, Names(ks), lo, hi);
    NameAtIs(h, |ks|, i, lo, hi, ks[i].name);
  }

  /** A laid-out header of sorted keys is well formed, and its triples and
      names are the keys'. */
  lemma LaidWellFormed(h: seq<Byte>, ks: seq<Key>)
    requires Laid(h, ks) && |h| < TWO_32 && SortedBy(ks, KeyLe)
    ensures WellFormed(h, |ks|)
    ensures forall i :: 0 <= i < |ks| ==>
      && NameAt(h, |ks|, i) == ks[i].name
      && StartAt(h, i) == ks[i].startByte
      && EndAt(h, i) == ks[i].endByte
  {
    var n := |ks|;
    LaidSentinel(h, ks);
    forall i | 0 <= i < n
      ensures NameAt(h, n, i) == ks[i].name
      ensures StartAt(h, i) == ks[i].startByte && EndAt(h, i) == ks[i].endByte
    {
      LaidTriple(h, ks, i);
      LaidName(h, ks, i);
    }
    forall i | 0 <= i <= n ensures 12 * n + 4 + OffAt(h, i) <= |h| {
      if i < n {
        LaidTriple(h, ks, i);
        NamesLenPrefix(ks, i);
      }
    }
    forall i | 0 <= i < n ensures OffAt(h, i) <= OffAt(h, i + 1) {
      LaidTriple(h, ks, i);
      LaidNext(h, ks, i);
    }
    forall i, j | 0 <= i < j < n ensures Compare(NameAt(h, n, i), NameAt(h, n, j)) <= 0 {
      assert KeyLe(ks[i], ks[j]);
    }
  }

  /** The header WriteTo emits for sorted keys is well formed and holds the
      keys, as long as its size fits a uint32. */
  lemma HeaderWellFormed(ks: seq<Key>)
    requires SortedBy(ks, KeyLe)
    requires 12 * |ks| + 4 + NamesLen(ks) < TWO_32
    ensures WellFormed(Header(ks), |ks|)
    ensures forall i :: 0 <= i < |ks| ==>
      && NameAt(Header(ks), |ks|, i) == ks[i].name
      && StartAt(Header(ks), i) == ks[i].startByte
      && EndAt(Header(ks), i) == ks[i].endByte
  {
    HeaderLaid(ks);
    LaidWellFormed(Header(ks), ks);
  }

  // ---------------------------------------------------------------------
  // Writer

  /** What closing the open key does: it ends at the buffer's length. */
  function Closed(ks: seq<Key>, len: nat): (r: seq<Key>)
    ensures |r| == |ks|
  {
    if ks == [] then []
    else ks[..|ks| - 1] + [ks[|ks| - 1].(endByte := Uint32(len))]
  }

  /** A payload position written into an array through Go's `copy` or
      `PutUint32`: `w` replaces the bytes from `p`. */
  function Patch(s: seq<Byte>, p: nat, w: seq<Byte>): (r: seq<Byte>)
    requires p + |w| <= |s|
    ensures |r| == |s|
  {
    s[..p] + w + s[p + |w|..]
  }

  lemma PatchKeeps(s: seq<Byte>, p: nat, w: seq<Byte>, lo: nat, hi: nat)
    requires p + |w| <= |s| && lo <= hi <= |s|
    requires hi <= p || p + |w| <= lo
    ensures Patch(s, p, w)[lo..hi] == s[lo..hi]
  {
    var r := Patch(s, p, w);
    forall i | lo <= i < hi ensures r[i] == s[i] {
      if i < p {
        assert r[i] == s[..p][i];
      } else {
        assert r[i] == s[p + |w|..][i - p - |w|];
      }
    }
  }

  lemma PatchPuts(s: seq<Byte>, p: nat, w: seq<Byte>)
    requires p + |w| <= |s|
    ensures Patch(s, p, w)[p..p + |w|] == w
  {
  }

  lemma PatchThen(s: seq<Byte>, p: nat, u: seq<Byte>, v: seq<Byte>)
    requires p + |u| + |v| <= |s|
    ensures Patch(Patch(s, p, u), p + |u|, v) == Patch(s, p, u + v)
  {
    var r := Patch(Patch(s, p, u), p + |u|, v);
    var t := Patch(s, p, u + v);
    forall i | 0 <= i < |s| ensures r[i] == t[i] {
      if i < p {
      } else if i < p + |u| {
      } else if i < p + |u| + |v| {
      } else {
      }
    }
    assert r == t;
  }

  method PutUint32(a: array<Byte>, p: nat, v: U32)
    requires p + 4 <= a.Length
    modifies a
    ensures a[..] == Patch(old(a[..]), p, LE32(v))
  {
    var w := LE32(v);
    a[p], a[p + 1], a[p + 2], a[p + 3] := w[0], w[1], w[2], w[3];
    assert a[..] == old(a[..])[..p] + w + old(a[..])[p + 4..];
  }

  /** Go's `copy(dst[p:], w)` where the room is there. */
  method CopyInto(a: array<Byte>, p: nat, w: seq<Byte>)
    requires p + |w| <= a.Length
    modifies a
    ensures a[..] == Patch(old(a[..]), p, w)
  {
    ghost var s := a[..];
    for j := 0 to |w|
      invariant a[..] == Patch(s, p, w[..j])
    {
      a[p + j] := w[j];
      assert w[..j + 1] == w[..j] + [w[j]];
    }
    assert w[..|w|] == w;
  }

  /** One key's triple at `tab` and its name at `strs`: the part of the
      table before `tab` and the part of the names from `base` to `strs`
      each grow by what was written, and the first 8 bytes stay. */
  method PutEntry(a: array<Byte>, tab: nat, base: nat, strs: nat, off: U32, k: Key)
    requires 8 <= tab && tab + 12 <= base <= strs && strs + |k.name| <= a.Length
    modifies a
    ensures a[..8] == old(a[..8])
    ensures a[8..tab + 12] == old(a[8..tab]) + Triple(off, k)
    ensures a[base..strs + |k.name|] == old(a[base..strs]) + k.name
  {
    ghost var s := a[..];
    PutUint32(a, tab, off);
    PutUint32(a, tab + 4, k.startByte);
    PatchThen(s, tab, LE32(off), LE32(k.startByte));
    PutUint32(a, tab + 8, k.endByte);
    PatchThen(s, tab, LE32(off) + LE32(k.startByte), LE32(k.endByte));
    CopyInto(a, strs, k.name);
    TwoPatches(s, tab, Triple(off, k), strs, k.name, base);
  }

  /** An image whose first 8 bytes are `head` and whose first `i` triples
      and names are filled in. */
  ghost predicate FilledTo(s: seq<Byte>, ks: seq<Key>, i: nat, head: seq<Byte>) {
    && i <= |ks| && |s| == 8 + 12 * |ks| + 4 + NamesLen(ks)
    && NamesLen(ks[..i]) <= NamesLen(ks)
    && s[..8] == head
    && s[8..8 + 12 * i] == Table(ks[..i])
    && s[8 + 12 * |ks| + 4..8 + 12 * |ks| + 4 + NamesLen(ks[..i])] == Names(ks[..i])
  }

  /** One turn of WriteTo's loop: key `i`'s triple at the `tab` cursor, its
      name at the `strs` cursor. */
  method PutEntryAt(a: array<Byte>, ks: seq<Key>, i: nat, tab: nat, strs: nat, strspos: nat, ghost head: seq<Byte>)
    requires i < |ks| && FilledTo(a[..], ks, i, head)
    requires tab == 8 + 12 * i && strspos == NamesLen(ks[..i]) && strs == 8 + 12 * |ks| + 4 + strspos
    modifies a
    ensures FilledTo(a[..], ks, i + 1, head)
  {
    NamesAt(ks, i);
    ghost var s := a[..];
    var base := 8 + 12 * |ks| + 4;
    assert a[..8] == s[..8] && a[8..tab] == s[8..tab] && a[base..strs] == s[base..strs];
    PutEntry(a, tab, base, strs, Uint32(strspos), ks[i]);
    WroteEntryOf(s, a[..], ks, i, tab, base, strs, Uint32(strspos));
    FilledStep(s, a[..], ks, i, head);
  }

  lemma WroteEntryOf(s: seq<Byte>, r: seq<Byte>, ks: seq<Key>, i: nat, tab: nat, base: nat, strs: nat, off: U32)
    requires i < |ks| && |r| == |s| == 8 + 12 * |ks| + 4 + NamesLen(ks)
    requires NamesLen(ks[..i]) + |ks[i].name| <= NamesLen(ks)
    requires tab == 8 + 12 * i && base == 8 + 12 * |ks| + 4 && strs == base + NamesLen(ks[..i])
    requires off == Uint32(NamesLen(ks[..i]))
    requires tab + 12 <= base && strs + |ks[i].name| <= |s|
    requires r[..8] == s[..8]
    requires r[8..tab + 12] == s[8..tab] + Triple(off, ks[i])
    requires r[base..strs + |ks[i].name|] == s[base..strs] + ks[i].name
    ensures WroteEntry(s, r, ks, i)
  {
  }

  /** What one turn of the loop wrote into `s` to give `r`: triple `i`
      after the first `i`, name `i` after the first `i`. */
  ghost predicate WroteEntry(s: seq<Byte>, r: seq<Byte>, ks: seq<Key>, i: nat) {
    var base := 8 + 12 * |ks| + 4;
    && i < |ks| && |r| == |s| == base + NamesLen(ks)
    && NamesLen(ks[..i]) + |ks[i].name| <= NamesLen(ks)
    && r[..8] == s[..8]
    && r[8..8 + 12 * i + 12] == s[8..8 + 12 * i] + Triple(Uint32(NamesLen(ks[..i])), ks[i])
    && r[base..base + NamesLen(ks[..i]) + |ks[i].name|] == s[base..base + NamesLen(ks[..i])] + ks[i].name
  }

  lemma FilledStep(s: seq<Byte>, r: seq<Byte>, ks: seq<Key>, i: nat, head: seq<Byte>)
    requires FilledTo(s, ks, i, head) && WroteEntry(s, r, ks, i)
    ensures FilledTo(r, ks, i + 1, head)
  {
    NamesLenPrefix(ks, i + 1);
    FilledTableStep(s, r, ks, i, head);
    FilledNamesStep(s, r, ks, i, head);
  }

  lemma FilledTableStep(s: seq<Byte>, r: seq<Byte>, ks: seq<Key>, i: nat, head: seq<Byte>)
    requires FilledTo(s, ks, i, head) && WroteEntry(s, r, ks, i)
    ensures r[8..8 + 12 * (i + 1)] == Table(ks[..i + 1])
  {
    TableStep(ks, i);
  }

  lemma FilledNamesStep(s: seq<Byte>, r: seq<Byte>, ks: seq<Key>, i: nat, head: seq<Byte>)
    requires FilledTo(s, ks, i, head) && WroteEntry(s, r, ks, i)
    ensures NamesLen(ks[..i + 1]) == NamesLen(ks[..i]) + |ks[i].name|
    ensures r[8 + 12 * |ks| + 4..8 + 12 * |ks| + 4 + NamesLen(ks[..i + 1])] == Names(ks[..i + 1])
  {
    NamesLenStep(ks, i);
  }

  /** WriteTo's loop: each key's triple goes in at the `tab` cursor and its
      name at the `strs` cursor, both cursors advancing; the first 8 bytes
      are left alone. */
  method PutEntries(a: array<Byte>, ks: seq<Key>)
    requires a.Length == 8 + 12 * |ks| + 4 + NamesLen(ks)
    modifies a
    ensures FilledTo(a[..], ks, |ks|, old(a[..8]))
  {
    var n := |ks|;
    ghost var head := a[..8];
    var base := 8 + 12 * n + 4;
    var tab := 8;
    var strs := base;
    var strspos := 0;
    for i := 0 to n
      invariant tab == 8 + 12 * i && strspos == NamesLen(ks[..i]) && strs == base + strspos
      invariant FilledTo(a[..], ks, i, head)
    {
      PutEntryAt(a, ks, i, tab, strs, strspos, head);
      NamesLenStep(ks, i);
      tab := tab + 12;
      strspos := strspos + |ks[i].name|;
      strs := strs + |ks[i].name|;
    }
  }

  /** The first 8 bytes: the key count and the total name length. */
  method PutHead(a: array<Byte>, n: U32, strslen: U32)
    requires 8 <= a.Length
    modifies a
    ensures a[..8] == LE32(n) + LE32(strslen)
  {
    ghost var s0 := a[..];
    PutUint32(a, 0, n);
    PutUint32(a, 4, strslen);
    PatchThen(s0, 0, LE32(n), LE32(strslen));
    PatchPuts(s0, 0, LE32(n) + LE32(strslen));
  }

  /** The sentinel after the table completes the image. */
  method PutSentinel(a: array<Byte>, ks: seq<Key>, ghost head: seq<Byte>)
    requires FilledTo(a[..], ks, |ks|, head)
    modifies a
    ensures a[..] == head + Header(ks)
  {
    ghost var s := a[..];
    var tab := 8 + 12 * |ks|;
    var w := LE32(Uint32(NamesLen(ks)));
    assert ks[..|ks|] == ks;
    PutUint32(a, tab, Uint32(NamesLen(ks)));
    PatchKeeps(s, tab, w, 0, 8);
    PatchKeeps(s, tab, w, 8, tab);
    PatchKeeps(s, tab, w, tab + 4, |s|);
    PatchPuts(s, tab, w);
    Assemble(a[..], ks, head);
  }

  /** The image's parts, put together. */
  lemma Assemble(s: seq<Byte>, ks: seq<Key>, head: seq<Byte>)
    requires |s| == 8 + 12 * |ks| + 4 + NamesLen(ks)
    requires s[..8] == head && s[8..8 + 12 * |ks|] == Table(ks)
    requires s[8 + 12 * |ks|..8 + 12 * |ks| + 4] == LE32(Uint32(NamesLen(ks)))
    requires s[8 + 12 * |ks| + 4..] == Names(ks)
    ensures s == head + Header(ks)
  {
    var n := |ks|;
    Join4(s, head, Table(ks), LE32(Uint32(NamesLen(ks))), Names(ks));
  }

  lemma Join4(s: seq<Byte>, a: seq<Byte>, b: seq<Byte>, c: seq<Byte>, d: seq<Byte>)
    requires |s| == |a| + |b| + |c| + |d|
    requires s[..|a|] == a && s[|a|..|a| + |b|] == b
    requires s[|a| + |b|..|a| + |b| + |c|] == c && s[|a| + |b| + |c|..] == d
    ensures s == a + (b + c + d)
  {
    assert s == s[..|a|] + s[|a|..|a| + |b|] + s[|a| + |b|..|a| + |b| + |c|] + s[|a| + |b| + |c|..];
  }

  lemma TableStep(ks: seq<Key>, i: nat)
    requires i < |ks|
    ensures Table(ks[..i + 1]) == Table(ks[..i]) + Triple(Uint32(NamesLen(ks[..i])), ks[i])
  {
    assert ks[..i + 1][..i] == ks[..i];
  }

  /** Two writes into disjoint parts: each part grows by what was written. */
  lemma TwoPatches(s: seq<Byte>, tab: nat, t: seq<Byte>, strs: nat, w: seq<Byte>, base: nat)
    requires 8 <= tab && tab + |t| <= base <= strs && strs + |w| <= |s|
    ensures var r := Patch(Patch(s, tab, t), strs, w);
            && r[..8] == s[..8]
            && r[8..tab + |t|] == s[8..tab] + t
            && r[base..strs + |w|] == s[base..strs] + w
  {
    var s1 := Patch(s, tab, t);
    var r := Patch(s1, strs, w);
    PatchKeeps(s, tab, t, 0, 8);
    PatchKeeps(s1, strs, w, 0, 8);
    PatchKeeps(s, tab, t, 8, tab);
    PatchKeeps(s1, strs, w, 8, tab + |t|);
    PatchPuts(s, tab, t);
    assert r[8..tab + |t|] == r[8..tab] + r[tab..tab + |t|];
    PatchKeeps(s, tab, t, base, strs);
    PatchKeeps(s1, strs, w, base, strs);
    PatchPuts(s1, strs, w);
    assert r[base..strs + |w|] == r[base..strs] + r[strs..strs + |w|];
  }

  /** The part of WriteTo that builds `buf`: the 8-byte head, the table,
      the sentinel and the names, for keys already sorted. */
  method Encode(ks: seq<Key>) returns (image: seq<Byte>)
    ensures image == LE32(Uint32(|ks|)) + LE32(Uint32(NamesLen(ks))) + Header(ks)
  {
    var n := |ks|;
    var strslen := 0;
    for i := 0 to n
      modifies {}
      invariant strslen == NamesLen(ks[..i])
    {
      NamesLenStep(ks, i);
      strslen := strslen + |ks[i].name|;
    }
    assert ks[..n] == ks;
    var a := new Byte[8 + 12 * n + 4 + strslen];
    PutHead(a, Uint32(n), Uint32(strslen));
    ghost var head := a[..8];
    PutEntries(a, ks);
    PutSentinel(a, ks, head);
    image := a[..];
  }

  /** `refpack.Writer`: a byte buffer the blobs are written into, and one key
      per blob, the last of which is still open (its end is set on the next
      NewName or on WriteTo). */
  class Writer {
    var buf: seq<Byte>
    var keys: seq<Key>

    constructor ()
      ensures buf == [] && keys == []
    {
      buf := [];
      keys := [];
    }

    /** The embedded buffer's Write/WriteString. */
    method Write(data: seq<Byte>)
      modifies this
      ensures buf == old(buf) + data && keys == old(keys)
    {
      buf := buf + data;
    }

    /** `NewName`: the open key ends at the buffer's length and a new key
        opens there; the keys before it are untouched. */
    method NewName(name: seq<Byte>)
      modifies this
      ensures buf == old(buf)
      ensures keys == Closed(old(keys), |buf|) + [Key(name, Uint32(|buf|), 0)]
    {
      if |keys| != 0 {
        keys := keys[..|keys| - 1] + [keys[|keys| - 1].(endByte := Uint32(|buf|))];
      }
      keys := keys + [Key(name, Uint32(|buf|), 0)];
    }

    /** `WriteTo`: closes the last key, sorts the keys by name and returns
        the bytes written to the sink: the layout above followed by the
        payload. */
    method WriteTo() returns (out: seq<Byte>)
      modifies this
      ensures buf == old(buf)
      ensures keys == InsertionSort(Closed(old(keys), |buf|), KeyLe)
      ensures out == Image(keys, buf)
    {
      var ks := keys;
      if |ks| != 0 {
        ks := ks[..|ks| - 1] + [ks[|ks| - 1].(endByte := Uint32(|buf|))];
      }
      ks := InsertionSort(ks, KeyLe);
      var image := Encode(ks);
      keys := ks;
      out := image + buf;
    }
  }

  /** The last key's end is the payload's length; earlier keys keep theirs. */
  lemma ClosedKeys(ks: seq<Key>, len: nat)
    requires len < TWO_32
    ensures forall i :: 0 <= i < |ks| ==>
      Closed(ks, len)[i].name == ks[i].name && Closed(ks, len)[i].startByte == ks[i].startByte
    ensures forall i :: 0 <= i < |ks| - 1 ==> Closed(ks, len)[i] == ks[i]
    ensures |ks| > 0 ==> Closed(ks, len)[|ks| - 1].endByte == len
  {
  }
}
