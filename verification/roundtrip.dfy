/** The round trip of kythe/cs/refpack/refpack_test.go: blobs written under
    distinct names, the pack reopened, and each blob read back through
    `SeekToName`; names never written are not found. */
module RefRoundTrip {
  import opened Wrappers
  import opened Numbers
  import opened Sorting
  import opened RefPack
  import opened RefReader

  /** The blobs one after the other, as the writer's buffer holds them. */
  function Flatten(cs: seq<seq<Byte>>): (r: seq<Byte>) {
    if cs == [] then [] else Flatten(cs[..|cs| - 1]) + cs[|cs| - 1]
  }

  lemma FlattenStep(cs: seq<seq<Byte>>, j: nat)
    requires j < |cs|
    ensures Flatten(cs[..j + 1]) == Flatten(cs[..j]) + cs[j]
  {
    assert cs[..j + 1][..j] == cs[..j];
  }

  /** The buffer up to blob `j` is a prefix of the whole buffer. */
  lemma {:induction false} FlattenPrefix(cs: seq<seq<Byte>>, j: nat)
    requires j <= |cs|
    ensures |Flatten(cs[..j])| <= |Flatten(cs)| && Flatten(cs)[..|Flatten(cs[..j])|] == Flatten(cs[..j])
  {
    if j < |cs| {
      var init := cs[..|cs| - 1];
      FlattenPrefix(init, j);
      assert init[..j] == cs[..j];
      assert Flatten(cs) == Flatten(init) + cs[|cs| - 1];
    } else {
      assert cs[..j] == cs;
    }
  }

  /** Blob `j` sits in the buffer between the lengths of the blobs before
      it and up to it. */
  lemma FlattenAt(cs: seq<seq<Byte>>, j: nat)
    requires j < |cs|
    ensures |Flatten(cs[..j + 1])| == |Flatten(cs[..j])| + |cs[j]| <= |Flatten(cs)|
    ensures Flatten(cs)[|Flatten(cs[..j])|..|Flatten(cs[..j + 1])|] == cs[j]
  {
    FlattenStep(cs, j);
    FlattenPrefix(cs, j + 1);
    var f, p := Flatten(cs), Flatten(cs[..j + 1]);
    assert f[|Flatten(cs[..j])|..|p|] == p[|Flatten(cs[..j])|..];
  }

  /** Key `j` once the writer is closed: blob `j`'s name, where it starts
      and where it ends in the buffer. */
  function ExpectedKey(names: seq<seq<Byte>>, cs: seq<seq<Byte>>, j: nat): Key
    requires j < |names| && j < |cs|
  {
    Key(names[j], Uint32(|Flatten(cs[..j])|), Uint32(|Flatten(cs[..j + 1])|))
  }

  function Written(names: seq<seq<Byte>>, cs: seq<seq<Byte>>, m: nat): (r: seq<Key>)
    requires m <= |names| && m <= |cs|
    ensures |r| == m
  {
    seq(m, j requires 0 <= j < m => ExpectedKey(names, cs, j))
  }

  /** The test's write loop: `NewName` then `WriteString` for each blob.
      Closing the keys gives each blob's name, start and end. */
  method WriteAll(names: seq<seq<Byte>>, cs: seq<seq<Byte>>) returns (w: Writer)
    requires |names| == |cs|
    ensures fresh(w)
    ensures w.buf == Flatten(cs)
    ensures Closed(w.keys, |w.buf|) == Written(names, cs, |cs|)
  {
    w := new Writer();
    for i := 0 to |cs|
      invariant w.buf == Flatten(cs[..i])
      invariant Closed(w.keys, |w.buf|) == Written(names, cs, i)
    {
      ghost var before := Closed(w.keys, |w.buf|);
      w.NewName(names[i]);
      w.Write(cs[i]);
      FlattenStep(cs, i);
      var ks := w.keys;
      assert ks == before + [Key(names[i], Uint32(|Flatten(cs[..i])|), 0)];
      assert ks[..|ks| - 1] == before;
      assert Written(names, cs, i + 1) == Written(names, cs, i) + [ExpectedKey(names, cs, i)];
    }
    assert cs[..|cs|] == cs;
  }

  lemma {:induction false} NamesLenConcat(a: seq<Key>, b: seq<Key>)
    ensures NamesLen(a + b) == NamesLen(a) + NamesLen(b)
  {
    if b != [] {
      NamesLenConcat(a, b[..|b| - 1]);
      assert (a + b)[..|a + b| - 1] == a + b[..|b| - 1];
    } else {
      assert a + b == a;
    }
  }

  lemma NamesLenOne(x: Key)
    ensures NamesLen([x]) == |x.name|
  {
    assert [x][..0] == [];
  }

  /** Inserting a key adds its name's length to the total. */
  lemma {:induction false} NamesLenInsert(x: Key, t: seq<Key>)
    ensures NamesLen(Insert(x, t, KeyLe)) == NamesLen(t) + |x.name|
  {
    NamesLenOne(x);
    if t == [] {
    } else if KeyLe(x, t[0]) {
      NamesLenConcat([x], t);
    } else {
      NamesLenInsert(x, t[1..]);
      NamesLenConcat([t[0]], Insert(x, t[1..], KeyLe));
      NamesLenConcat([t[0]], t[1..]);
      NamesLenOne(t[0]);
      assert [t[0]] + t[1..] == t;
    }
  }

  /** Sorting the keys leaves the total name length as it was. */
  lemma {:induction false} NamesLenSort(s: seq<Key>)
    ensures NamesLen(InsertionSort(s, KeyLe)) == NamesLen(s)
  {
    if s != [] {
      NamesLenSort(s[1..]);
      NamesLenInsert(s[0], InsertionSort(s[1..], KeyLe));
      NamesLenConcat([s[0]], s[1..]);
      NamesLenOne(s[0]);
      assert [s[0]] + s[1..] == s;
    }
  }

  /** The total length of the names. */
  function NameBytes(names: seq<seq<Byte>>): nat {
    if names == [] then 0 else NameBytes(names[..|names| - 1]) + |names[|names| - 1]|
  }

  lemma {:induction false} WrittenNamesLen(names: seq<seq<Byte>>, cs: seq<seq<Byte>>, m: nat)
    requires m <= |names| == |cs|
    ensures NamesLen(Written(names, cs, m)) == NameBytes(names[..m])
  {
    if m > 0 {
      WrittenNamesLen(names, cs, m - 1);
      assert Written(names, cs, m)[..m - 1] == Written(names, cs, m - 1);
      assert names[..m][..m - 1] == names[..m - 1];
    }
  }

  predicate Distinct(names: seq<seq<Byte>>) {
    forall i, j :: 0 <= i < j < |names| ==> names[i] != names[j]
  }

  /** A key of the sorted table is the key of the blob with its name. */
  lemma KeyOfName(names: seq<seq<Byte>>, cs: seq<seq<Byte>>, keys: seq<Key>, i: nat, j: nat)
    requires |names| == |cs| && Distinct(names)
    requires multiset(keys) == multiset(Written(names, cs, |cs|))
    requires i < |keys| && j < |names| && keys[i].name == names[j]
    ensures keys[i] == ExpectedKey(names, cs, j)
  {
    assert keys[i] in multiset(Written(names, cs, |cs|));
    var j' :| 0 <= j' < |cs| && Written(names, cs, |cs|)[j'] == keys[i];
    assert names[j'] == names[j];
  }

  /** Every blob's key is somewhere in the sorted table. */
  lemma NameInKeys(names: seq<seq<Byte>>, cs: seq<seq<Byte>>, keys: seq<Key>, j: nat)
    requires |names| == |cs| && j < |names|
    requires multiset(keys) == multiset(Written(names, cs, |cs|))
    ensures exists i :: 0 <= i < |keys| && keys[i].name == names[j]
  {
    var k := ExpectedKey(names, cs, j);
    assert Written(names, cs, |cs|)[j] == k;
    assert k in multiset(keys);
    var i :| 0 <= i < |keys| && keys[i] == k;
  }

  /** Every name in the sorted table is a blob's name. */
  lemma KeysNamed(names: seq<seq<Byte>>, cs: seq<seq<Byte>>, keys: seq<Key>, i: nat)
    requires |names| == |cs| && i < |keys|
    requires multiset(keys) == multiset(Written(names, cs, |cs|))
    ensures keys[i].name in names
  {
    assert keys[i] in multiset(Written(names, cs, |cs|));
    var j :| 0 <= j < |cs| && Written(names, cs, |cs|)[j] == keys[i];
  }

  /** The sizes a pack must fit for the round trip: the payload and the
      header are addressed by uint32 offsets. */
  predicate Fits(names: seq<seq<Byte>>, cs: seq<seq<Byte>>) {
    |names| == |cs| && |Flatten(cs)| < TWO_32 && 12 * |names| + 4 + NameBytes(names) < TWO_32
  }

  /** Writes the blobs, then reopens the pack from a `bytes.Reader` over
      what WriteTo wrote.  The reader holds the sorted keys' header, which
      is well formed. */
  method WriteAndOpen(names: seq<seq<Byte>>, cs: seq<seq<Byte>>) returns (rd: Reader, ghost keys: seq<Key>)
    requires Fits(names, cs)
    ensures fresh(rd.src)
    ensures multiset(keys) == multiset(Written(names, cs, |cs|)) && |keys| == |cs|
    ensures rd.keyslen == |keys| && rd.src.pos == 8 + |rd.header| <= |rd.src.data|
    ensures rd.src.data[rd.src.pos..] == Flatten(cs)
    ensures WellFormed(rd.header, rd.keyslen)
    ensures forall i :: 0 <= i < |keys| ==>
      && NameAt(rd.header, rd.keyslen, i) == keys[i].name
      && StartAt(rd.header, i) == keys[i].startByte
      && EndAt(rd.header, i) == keys[i].endByte
  {
    var w := WriteAll(names, cs);
    ghost var closed := Closed(w.keys, |w.buf|);
    var out := w.WriteTo();
    keys := w.keys;
    KeyLeIsOrder();
    InsertionSortSorted(closed, KeyLe);
    WrittenNamesLen(names, cs, |cs|);
    assert names[..|cs|] == names;
    NamesLenSort(closed);
    OpenImage(keys, w.buf);
    HeaderWellFormed(keys);
    var fr := new ByteStream(out);
    var r := NewReader(fr);
    rd := r.value;
  }

  /** The first loop of the test: looking up a written name gives its
      blob's length and leaves the stream at the blob, so reading that
      many bytes gives the blob back. */
  method ReadBack(names: seq<seq<Byte>>, cs: seq<seq<Byte>>, j: nat) returns (got: seq<Byte>)
    requires Fits(names, cs) && Distinct(names) && j < |names|
    ensures got == cs[j]
  {
    var rd, keys := WriteAndOpen(names, cs);
    NameInKeys(names, cs, keys, j);
    var len, i := Lookup(rd, names[j]);
    FoundBlob(rd.header, rd.keyslen, names, cs, keys, i, j, len);
    ghost var d, p, pos := rd.src.data, 8 + |rd.header|, rd.src.pos;
    var eof: bool;
    got, eof := rd.src.Read(len);
    BlobRead(d, p, Flatten(cs), |Flatten(cs[..j])|, |cs[j]|, pos, got);
  }

  /** Looking up a name some key of a well-formed header has: the lookup
      does not panic, finds a key `i` with that name, returns its blob's
      length and leaves the stream at its blob. */
  method Lookup(rd: Reader, name: seq<Byte>) returns (len: nat, ghost i: nat)
    requires WellFormed(rd.header, rd.keyslen)
    requires exists t :: 0 <= t < rd.keyslen && NameAt(rd.header, rd.keyslen, t) == name
    modifies rd.src
    ensures i < rd.keyslen && NameAt(rd.header, rd.keyslen, i) == name
    ensures len == Uint32(EndAt(rd.header, i) - StartAt(rd.header, i))
    ensures rd.src.pos == 8 + |rd.header| + StartAt(rd.header, i)
  {
    var n := rd.SeekToName(name);
    i :| 0 <= i < rd.keyslen && NameAt(rd.header, rd.keyslen, i) == name
      && n.value == Uint32(EndAt(rd.header, i) - StartAt(rd.header, i))
      && rd.src.pos == 8 + |rd.header| + StartAt(rd.header, i);
    len := n.value;
  }

  /** What the reader found for the name of blob `j`: the length of blob
      `j`, at the offset where blob `j` starts in the payload. */
  lemma FoundBlob(h: seq<Byte>, k: U32, names: seq<seq<Byte>>, cs: seq<seq<Byte>>, keys: seq<Key>, i: nat, j: nat, v: int)
    requires Fits(names, cs) && Distinct(names)
    requires multiset(keys) == multiset(Written(names, cs, |cs|))
    requires WellFormed(h, k) && k == |keys| && i < |keys| && j < |names| && NameAt(h, k, i) == names[j]
    requires forall i :: 0 <= i < |keys| ==>
      && NameAt(h, k, i) == keys[i].name
      && StartAt(h, i) == keys[i].startByte
      && EndAt(h, i) == keys[i].endByte
    requires v == Uint32(EndAt(h, i) - StartAt(h, i))
    ensures StartAt(h, i) == |Flatten(cs[..j])| && v == |cs[j]|
    ensures |Flatten(cs[..j])| + |cs[j]| <= |Flatten(cs)|
    ensures Flatten(cs)[|Flatten(cs[..j])|..|Flatten(cs[..j])| + |cs[j]|] == cs[j]
  {
    Located(names, cs, keys, i, j);
  }

  /** The key found for blob `j`'s name starts where blob `j` starts and is
      as long as blob `j`. */
  lemma Located(names: seq<seq<Byte>>, cs: seq<seq<Byte>>, keys: seq<Key>, i: nat, j: nat)
    requires Fits(names, cs) && Distinct(names)
    requires multiset(keys) == multiset(Written(names, cs, |cs|))
    requires i < |keys| && j < |names| && keys[i].name == names[j]
    ensures keys[i].startByte == |Flatten(cs[..j])|
    ensures Uint32(keys[i].endByte - keys[i].startByte) == |cs[j]|
    ensures |Flatten(cs[..j])| + |cs[j]| <= |Flatten(cs)|
    ensures Flatten(cs)[|Flatten(cs[..j])|..|Flatten(cs[..j])| + |cs[j]|] == cs[j]
  {
    KeyOfName(names, cs, keys, i, j);
    FlattenAt(cs, j);
  }

  /** Reading `len` bytes at offset `start` of what follows position `p`. */
  lemma BlobRead(d: seq<Byte>, p: nat, payload: seq<Byte>, start: nat, len: nat, pos: nat, got: seq<Byte>)
    requires p <= |d| && d[p..] == payload && start + len <= |payload|
    requires pos == p + start && got == ReadAt(d, pos, len)
    ensures got == payload[start..start + len]
  {
    if pos < |d| {
      assert d[p..][start..start + len] == d[pos..pos + len];
    }
  }

  /** The second loop of the test: a name that was not written is not
      found, and the search does not panic. */
  method Miss(names: seq<seq<Byte>>, cs: seq<seq<Byte>>, name: seq<Byte>) returns (n: Option<int>)
    requires Fits(names, cs) && name !in names
    ensures n == Some(-1)
  {
    var rd, keys := WriteAndOpen(names, cs);
    forall i | 0 <= i < |keys| ensures NameAt(rd.header, rd.keyslen, i) != name {
      KeysNamed(names, cs, keys, i);
    }
    n := rd.SeekToName(name);
  }
}
