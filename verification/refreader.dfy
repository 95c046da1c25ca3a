/** The reading side of kythe/cs/refpack/refpack.go: `NewReader` takes the
    header off a stream, `SeekToName` binary-searches its key table and
    positions the stream at the blob. */
module RefReader {
  import opened Wrappers
  import opened Numbers
  import opened RefPack

  /** The errors `NewReader` hands back: the stream's `io.EOF`, or the
      "short read" it makes itself. */
  datatype ReadError = EndOfFile | ShortRead

  function Min(a: int, b: int): int {
    if a <= b then a else b
  }

  /** What one `Read` into an `n`-byte buffer returns from position `pos`:
      nothing at the end of the data, otherwise as many bytes as remain, up
      to `n`. */
  function ReadAt(data: seq<Byte>, pos: nat, n: nat): (r: seq<Byte>)
    ensures |r| <= n && pos + |r| <= |data| + (if pos >= |data| then pos - |data| else 0)
    ensures pos >= |data| ==> r == []
    ensures pos < |data| ==> r == data[pos..pos + |r|] && (|r| == n || pos + |r| == |data|)
  {
    if pos >= |data| then [] else data[pos..Min(pos + n, |data|)]
  }

  /** The stream a pack is read from, with the behaviour of Go's
      `bytes.Reader`: a byte sequence and a read position. */
  class ByteStream {
    const data: seq<Byte>
    var pos: nat

    constructor (data: seq<Byte>)
      ensures this.data == data && pos == 0
    {
      this.data := data;
      pos := 0;
    }

    /** `Read(buf)` with `len(buf) == n`: at or past the end it returns no
        bytes and `io.EOF`; otherwise the bytes are copied and the position
        moves past them. */
    method Read(n: nat) returns (got: seq<Byte>, eof: bool)
      modifies this
      ensures eof == (old(pos) >= |data|)
      ensures got == ReadAt(data, old(pos), n)
      ensures pos == old(pos) + |got|
    {
      if pos >= |data| {
        return [], true;
      }
      got := data[pos..Min(pos + n, |data|)];
      eof := false;
      pos := pos + |got|;
    }

    /** `Seek(off, io.SeekStart)` for an offset that is not negative. */
    method Seek(off: nat)
      modifies this
      ensures pos == off
    {
      pos := off;
    }
  }

  /** The length `NewReader` allocates for the rest of the header,
      `12*keyslen+4+strslen` computed in uint32. */
  function HeaderLen(keyslen: U32, strslen: U32): U32 {
    Uint32(12 * keyslen + 4 + strslen)
  }

  datatype Opened = Opened(keyslen: U32, header: seq<Byte>)

  /** What `NewReader` finds in `data` read from `pos`: the error of the
      first read that fails or comes back short, or the key count and the
      header after the first 8 bytes. */
  function Open(data: seq<Byte>, pos: nat): Result<Opened, ReadError> {
    if pos >= |data| then Failure(EndOfFile)
    else if |data| - pos < 8 then Failure(ShortRead)
    else
      var len := HeaderLen(U32At(data, pos), U32At(data, pos + 4));
      if pos + 8 >= |data| then Failure(EndOfFile)
      else if |data| - (pos + 8) < len then Failure(ShortRead)
      else Success(Opened(U32At(data, pos), data[pos + 8..pos + 8 + len]))
  }

  /** Where the stream stands after `NewReader`. */
  function OpenEnd(data: seq<Byte>, pos: nat): nat {
    if pos >= |data| then pos
    else if |data| - pos < 8 then |data|
    else if pos + 8 >= |data| then pos + 8
    else pos + 8 + Min(HeaderLen(U32At(data, pos), U32At(data, pos + 4)), |data| - (pos + 8))
  }

  /** `NewReader` succeeds exactly when both reads get all they ask for:
      more than 8 bytes remain, and after them the whole header. */
  lemma OpenSucceeds(data: seq<Byte>, pos: nat)
    ensures Open(data, pos).Success? <==>
      pos + 8 < |data| && pos + 8 + HeaderLen(U32At(data, pos), U32At(data, pos + 4)) <= |data|
    ensures Open(data, pos).Success? ==>
      && Open(data, pos).value.keyslen == U32At(data, pos)
      && |Open(data, pos).value.header| == HeaderLen(U32At(data, pos), U32At(data, pos + 4))
      && OpenEnd(data, pos) == pos + 8 + |Open(data, pos).value.header|
  {
  }

  /** Reopening what WriteTo wrote gives back the key count and the header. */
  lemma OpenImage(ks: seq<Key>, payload: seq<Byte>)
    requires 12 * |ks| + 4 + NamesLen(ks) < TWO_32
    ensures Open(Image(ks, payload), 0) == Success(Opened(|ks|, Header(ks)))
    ensures OpenEnd(Image(ks, payload), 0) == 8 + |Header(ks)|
  {
    HeaderLaid(ks);
    OpenParts(Image(ks, payload), |ks|, NamesLen(ks), Header(ks), payload);
  }

  /** Opening bytes made of a head announcing `n` keys and `s` name bytes,
      a header of the announced length, and anything after it. */
  lemma OpenParts(d: seq<Byte>, n: U32, s: U32, h: seq<Byte>, rest: seq<Byte>)
    requires d == LE32(n) + LE32(s) + h + rest && |h| == 12 * n + 4 + s < TWO_32
    ensures Open(d, 0) == Success(Opened(n, h))
    ensures OpenEnd(d, 0) == 8 + |h|
  {
    assert d[0..4] == LE32(n);
    assert d[4..8] == LE32(s);
    ReadLE32(d, 0, n);
    ReadLE32(d, 4, s);
    assert d[8..8 + |h|] == h;
  }

  /** What one call of `SeekToName`'s search predicate computes for index
      `i`: the comparison with name `i`, and the start and end of that key
      when it is the name sought. */
  datatype Probe = Probe(c: int, startByte: U32, endByte: U32)

  /** The search predicate for index `i` of a header with `k` keys: `None`
      where Go panics on a slice or a uint32 read out of range.  Name
      positions are the offset plus `12*k+4`, both in uint32. */
  function ProbeAt(h: seq<Byte>, k: U32, name: seq<Byte>, i: nat): Option<Probe> {
    if 12 * i + 16 > |h| then None
    else
      var so := Uint32(12 * k + 4);
      var lo := Uint32(so + U32At(h, 12 * i));
      var hi := Uint32(so + U32At(h, 12 * i + 12));
      if !(lo <= hi <= |h|) then None
      else
        var c := Compare(name, h[lo..hi]);
        if c == 0 then Some(Probe(c, U32At(h, 12 * i + 4), U32At(h, 12 * i + 8)))
        else Some(Probe(c, 0, 0))
  }

  /** On a well-formed header no probe panics, each compares the name with
      name `i`, and a match reads key `i`'s start and end. */
  lemma ProbeWellFormed(h: seq<Byte>, k: U32, name: seq<Byte>, i: nat)
    requires WellFormed(h, k) && i < k
    ensures ProbeAt(h, k, name, i).Some?
    ensures ProbeAt(h, k, name, i).value.c == Compare(name, NameAt(h, k, i))
    ensures ProbeAt(h, k, name, i).value.c == 0 ==>
      ProbeAt(h, k, name, i).value.startByte == StartAt(h, i) && ProbeAt(h, k, name, i).value.endByte == EndAt(h, i)
  {
    assert 12 * k + 4 + OffAt(h, i) <= |h| && 12 * k + 4 + OffAt(h, i + 1) <= |h|;
    assert OffAt(h, i) <= OffAt(h, i + 1);
  }

  /** The names of a header in table order, as the search delimits them. */
  ghost function NamesOf(h: seq<Byte>, k: nat): (ns: seq<seq<Byte>>)
    ensures |ns| == k && forall t :: 0 <= t < k ==> ns[t] == NameAt(h, k, t)
  {
    seq(k, t requires 0 <= t < k => NameAt(h, k, t))
  }

  ghost predicate SortedNames(ns: seq<seq<Byte>>) {
    forall i, j :: 0 <= i < j < |ns| ==> Compare(ns[i], ns[j]) <= 0
  }

  lemma WellFormedSorted(h: seq<Byte>, k: nat)
    requires WellFormed(h, k)
    ensures SortedNames(NamesOf(h, k))
  {
  }

  /** Below a name the search found too small, every name is too small. */
  lemma NamesBelow(ns: seq<seq<Byte>>, name: seq<Byte>, m: nat)
    requires SortedNames(ns) && m < |ns| && Compare(name, ns[m]) > 0
    ensures forall t :: 0 <= t <= m ==> Compare(name, ns[t]) > 0
  {
    forall t | 0 <= t <= m ensures Compare(name, ns[t]) > 0 {
      CompareFlip(name, ns[m]);
      if t < m {
        CompareTrans(ns[t], ns[m], name);
      }
      CompareFlip(ns[t], name);
    }
  }

  /** Above a name the search found not too small, no name is too small. */
  lemma NamesAbove(ns: seq<seq<Byte>>, name: seq<Byte>, m: nat)
    requires SortedNames(ns) && m < |ns| && Compare(name, ns[m]) <= 0
    ensures forall t :: m <= t < |ns| ==> Compare(name, ns[t]) <= 0
  {
    forall t | m <= t < |ns| ensures Compare(name, ns[t]) <= 0 {
      if m < t {
        CompareTrans(name, ns[m], ns[t]);
      }
    }
  }

  /** A probe of index `i` that matched, with the start and end it read. */
  ghost predicate FoundAt(h: seq<Byte>, k: U32, name: seq<Byte>, i: nat, startByte: U32, endByte: U32) {
    i < k && ProbeAt(h, k, name, i) == Some(Probe(0, startByte, endByte))
  }

  /** How the search ended: no probe matched, or the last match, its index
      and the start and end it read. */
  datatype Hit = NotFound | Found(at: nat, startByte: U32, endByte: U32)

  /** The state of `sort.Search` in `SeekToName`: the bounds `i` and `j`,
      and what the `found`, `startByte` and `endByte` variables hold. */
  datatype Cursor = Cursor(lo: nat, hi: nat, hit: Hit)

  /** One turn of `sort.Search`: probe the middle index, record a match, and
      keep the half the predicate points to; `None` where the probe panics. */
  function SearchStep(h: seq<Byte>, k: U32, name: seq<Byte>, cur: Cursor): Option<Cursor>
    requires cur.lo < cur.hi
  {
    var mid := (cur.lo + cur.hi) / 2;
    match ProbeAt(h, k, name, mid)
    case None => None
    case Some(p) =>
      var hit := if p.c == 0 then Found(mid, p.startByte, p.endByte) else cur.hit;
      if !(p.c <= 0) then Some(Cursor(mid + 1, cur.hi, hit)) else Some(Cursor(cur.lo, mid, hit))
  }

  /** What the search knows about sorted names `ns`: every name below `lo`
      is before the name sought, none from `hi` on is, and the name at `hi`
      has been matched if it is the one sought; a match recorded is the one
      at `hi`. */
  ghost predicate Ordered(ns: seq<seq<Byte>>, name: seq<Byte>, cur: Cursor) {
    && cur.lo <= cur.hi <= |ns|
    && (forall t :: 0 <= t < cur.lo ==> Compare(name, ns[t]) > 0)
    && (forall t :: cur.hi <= t < |ns| ==> Compare(name, ns[t]) <= 0)
    && (cur.hi < |ns| && ns[cur.hi] == name ==> cur.hit.Found?)
    && (cur.hit.Found? ==> cur.hit.at == cur.hi)
  }

  /** The search's invariant: a recorded match is a real one, and on a
      well-formed header the names are ordered around the range. */
  ghost predicate Bracket(h: seq<Byte>, k: U32, name: seq<Byte>, cur: Cursor) {
    && cur.lo <= cur.hi <= k
    && (cur.hit.Found? ==> FoundAt(h, k, name, cur.hit.at, cur.hit.startByte, cur.hit.endByte))
    && (WellFormed(h, k) ==> Ordered(NamesOf(h, k), name, cur))
  }

  /** Moving past a name that is before the one sought. */
  lemma OrderedUp(ns: seq<seq<Byte>>, name: seq<Byte>, cur: Cursor, hit: Hit)
    requires SortedNames(ns) && Ordered(ns, name, cur) && cur.lo < cur.hi
    requires Compare(name, ns[(cur.lo + cur.hi) / 2]) > 0
    requires hit == cur.hit
    ensures Ordered(ns, name, Cursor((cur.lo + cur.hi) / 2 + 1, cur.hi, hit))
  {
    NamesBelow(ns, name, (cur.lo + cur.hi) / 2);
  }

  /** Stopping at a name that is not before the one sought, recorded if it
      is that name. */
  lemma OrderedDown(ns: seq<seq<Byte>>, name: seq<Byte>, cur: Cursor, hit: Hit)
    requires SortedNames(ns) && Ordered(ns, name, cur) && cur.lo < cur.hi
    requires Compare(name, ns[(cur.lo + cur.hi) / 2]) <= 0
    requires ns[(cur.lo + cur.hi) / 2] == name ==> hit.Found?
    requires hit.Found? ==> hit.at == (cur.lo + cur.hi) / 2
    ensures Ordered(ns, name, Cursor(cur.lo, (cur.lo + cur.hi) / 2, hit))
  {
    NamesAbove(ns, name, (cur.lo + cur.hi) / 2);
  }

  /** A turn of the search keeps what it knows and narrows the range; it
      panics only on a probe that panics, never on a well-formed header. */
  lemma StepKeeps(h: seq<Byte>, k: U32, name: seq<Byte>, cur: Cursor)
    requires Bracket(h, k, name, cur) && cur.lo < cur.hi
    ensures SearchStep(h, k, name, cur).None? ==> ProbeAt(h, k, name, (cur.lo + cur.hi) / 2).None?
    ensures WellFormed(h, k) ==> SearchStep(h, k, name, cur).Some?
    ensures SearchStep(h, k, name, cur).Some? ==>
      && Bracket(h, k, name, SearchStep(h, k, name, cur).value)
      && SearchStep(h, k, name, cur).value.hi - SearchStep(h, k, name, cur).value.lo < cur.hi - cur.lo
  {
    var mid := (cur.lo + cur.hi) / 2;
    if ProbeAt(h, k, name, mid).Some? {
      var p := ProbeAt(h, k, name, mid).value;
      var hit := if p.c == 0 then Found(mid, p.startByte, p.endByte) else cur.hit;
      if WellFormed(h, k) {
        var ns := NamesOf(h, k);
        ProbeWellFormed(h, k, name, mid);
        WellFormedSorted(h, k);
        if p.c > 0 {
          OrderedUp(ns, name, cur, hit);
        } else {
          if p.c < 0 && cur.hit.Found? {
            // the match recorded at `hi` is the name, which cannot sort after a larger one
            ProbeWellFormed(h, k, name, cur.hit.at);
            CompareTrans(name, ns[mid], ns[cur.hi]);
            assert false;
          }
          OrderedDown(ns, name, cur, hit);
        }
      }
    } else if WellFormed(h, k) {
      ProbeWellFormed(h, k, name, mid);
    }
  }

  /** The `sort.Search` call of `SeekToName` with its `found`, `startByte`
      and `endByte` variables; `None` where a probe panics.  On a
      well-formed header it never panics, and it finds the name exactly
      when some key has it, with that key's start and end. */
  method Search(h: seq<Byte>, k: U32, name: seq<Byte>) returns (res: Option<Hit>)
    ensures res.None? ==> exists i :: 0 <= i < k && ProbeAt(h, k, name, i).None?
    ensures res.Some? && res.value.Found? ==> FoundAt(h, k, name, res.value.at, res.value.startByte, res.value.endByte)
    ensures WellFormed(h, k) ==> res.Some?
    ensures WellFormed(h, k) && res.Some? ==>
      (res.value.Found? <==> exists i :: 0 <= i < k && NameAt(h, k, i) == name)
    ensures WellFormed(h, k) && res.Some? && res.value.Found? ==>
      && NameAt(h, k, res.value.at) == name
      && res.value.startByte == StartAt(h, res.value.at)
      && res.value.endByte == EndAt(h, res.value.at)
      && forall i :: 0 <= i < res.value.at ==> NameAt(h, k, i) != name
  {
    var cur := Cursor(0, k, NotFound);
    while cur.lo < cur.hi
      invariant Bracket(h, k, name, cur)
      decreases cur.hi - cur.lo
    {
      StepKeeps(h, k, name, cur);
      var next := SearchStep(h, k, name, cur);
      if next.None? {
        return None;
      }
      cur := next.value;
    }
    SearchDone(h, k, name, cur);
    return Some(cur.hit);
  }

  /** Where an ordered search stops, the name is, if it is anywhere. */
  lemma OrderedEnd(ns: seq<seq<Byte>>, name: seq<Byte>, cur: Cursor)
    requires SortedNames(ns) && Ordered(ns, name, cur) && cur.lo == cur.hi
    ensures cur.hit.Found? || forall t :: 0 <= t < |ns| ==> ns[t] != name
  {
    if cur.hi < |ns| && ns[cur.hi] != name {
      forall t | 0 <= t < |ns| ensures ns[t] != name {
        if cur.hi < t {
          CompareFlip(name, ns[cur.hi]);
        }
      }
    }
  }

  /** When the range is empty, on a well-formed header the name is found if
      present, and a recorded match is the name with its key's start and
      end. */
  lemma SearchDone(h: seq<Byte>, k: U32, name: seq<Byte>, cur: Cursor)
    requires Bracket(h, k, name, cur) && cur.lo == cur.hi
    ensures WellFormed(h, k) ==> (cur.hit.Found? <==> exists i :: 0 <= i < k && NameAt(h, k, i) == name)
    ensures WellFormed(h, k) && cur.hit.Found? ==>
      && NameAt(h, k, cur.hit.at) == name
      && cur.hit.startByte == StartAt(h, cur.hit.at)
      && cur.hit.endByte == EndAt(h, cur.hit.at)
      && forall i :: 0 <= i < cur.hit.at ==> NameAt(h, k, i) != name
  {
    if WellFormed(h, k) {
      WellFormedSorted(h, k);
      OrderedEnd(NamesOf(h, k), name, cur);
      if cur.hit.Found? {
        ProbeWellFormed(h, k, name, cur.hit.at);
        forall i | 0 <= i < cur.hit.at ensures NameAt(h, k, i) != name {
          assert Compare(name, NamesOf(h, k)[i]) > 0;
        }
      }
    }
  }

  /** The first key named `name` (as `sort.Search` finds the least index)
      has a blob `len` bytes long (end minus start in uint32) that starts at
      stream position `pos`. */
  ghost predicate KeyBlob(h: seq<Byte>, k: U32, name: seq<Byte>, len: int, pos: int) {
    exists i :: && 0 <= i < k && 12 * i + 12 <= |h| && NameAt(h, k, i) == name
                && len == Uint32(EndAt(h, i) - StartAt(h, i))
                && pos == 8 + |h| + StartAt(h, i)
                && FirstNamed(h, k, name, i)
  }

  ghost predicate FirstNamed(h: seq<Byte>, k: U32, name: seq<Byte>, i: nat) {
    forall j :: 0 <= j < i ==> NameAt(h, k, j) != name
  }

  /** On a well-formed header, a match the search reports is the key with
      that name, and its blob length and position are that key's. */
  lemma FoundKey(h: seq<Byte>, k: U32, name: seq<Byte>, hit: Hit, len: int, pos: int)
    requires hit.Found? && hit.at < k
    requires WellFormed(h, k) ==> && NameAt(h, k, hit.at) == name
                                   && hit.startByte == StartAt(h, hit.at) && hit.endByte == EndAt(h, hit.at)
                                   && FirstNamed(h, k, name, hit.at)
    requires len == Uint32(hit.endByte - hit.startByte) && pos == 8 + |h| + hit.startByte
    ensures WellFormed(h, k) ==> KeyBlob(h, k, name, len, pos)
  {
    if WellFormed(h, k) {
      var i := hit.at;
      assert && 0 <= i < k && 12 * i + 12 <= |h| && NameAt(h, k, i) == name
             && len == Uint32(EndAt(h, i) - StartAt(h, i))
             && pos == 8 + |h| + StartAt(h, i)
             && FirstNamed(h, k, name, i);
    }
  }

  /** `refpack.Reader`: the stream, the key count and the header read by
      `NewReader`. */
  class Reader {
    const src: ByteStream
    const keyslen: U32
    const header: seq<Byte>

    constructor (src: ByteStream, keyslen: U32, header: seq<Byte>)
      ensures this.src == src && this.keyslen == keyslen && this.header == header
    {
      this.src := src;
      this.keyslen := keyslen;
      this.header := header;
    }

    /** `SeekToName`: `None` where a probe panics.  When no probe matched it
        returns -1 and leaves the stream alone; otherwise it seeks to the
        blob of the last match, past the 8 bytes and the header, and returns
        the blob's length (end minus start in uint32).  On a well-formed
        header it never panics and finds the name exactly when some key has
        it. */
    method SeekToName(name: seq<Byte>) returns (r: Option<int>)
      modifies src
      ensures r.None? ==> exists i :: 0 <= i < keyslen && ProbeAt(header, keyslen, name, i).None?
      ensures r == Some(-1) ==> src.pos == old(src.pos)
      ensures r.Some? && r.value != -1 ==> exists i: nat, s: U32, e: U32 ::
        && FoundAt(header, keyslen, name, i, s, e)
        && r.value == Uint32(e - s) && src.pos == 8 + |header| + s
      ensures WellFormed(header, keyslen) ==> r.Some?
      ensures WellFormed(header, keyslen) ==>
        (r == Some(-1) <==> forall i :: 0 <= i < keyslen ==> NameAt(header, keyslen, i) != name)
      ensures WellFormed(header, keyslen) && r.Some? && r.value != -1 ==>
        KeyBlob(header, keyslen, name, r.value, src.pos)
    {
      var res := Search(header, keyslen, name);
      if res.None? {
        return None;
      }
      if res.value.NotFound? {
        assert WellFormed(header, keyslen) ==> forall i :: 0 <= i < keyslen ==> NameAt(header, keyslen, i) != name;
        return Some(-1);
      }
      var hit := res.value;
      assert FoundAt(header, keyslen, name, hit.at, hit.startByte, hit.endByte);
      assert WellFormed(header, keyslen) ==> hit.at < keyslen && NameAt(header, keyslen, hit.at) == name;
      assert WellFormed(header, keyslen) ==> FirstNamed(header, keyslen, name, hit.at);
      src.Seek(8 + |header| + hit.startByte);
      r := Some(Uint32(hit.endByte - hit.startByte));
      FoundKey(header, keyslen, name, hit, r.value, src.pos);
    }
  }

  /** `NewReader`: reads the 8-byte head, then the header it announces,
      failing with the stream's EOF or with a short read; on success the
      reader holds the key count and the header, and the stream stands
      just past them. */
  method NewReader(fr: ByteStream) returns (r: Result<Reader, ReadError>)
    modifies fr
    ensures fr.pos == OpenEnd(fr.data, old(fr.pos))
    ensures Open(fr.data, old(fr.pos)).Failure? ==> r == Failure(Open(fr.data, old(fr.pos)).error)
    ensures Open(fr.data, old(fr.pos)).Success? ==>
      && r.Success? && r.value.src == fr
      && r.value.keyslen == Open(fr.data, old(fr.pos)).value.keyslen
      && r.value.header == Open(fr.data, old(fr.pos)).value.header
  {
    var head, eof := fr.Read(8);
    if eof {
      return Failure(EndOfFile);
    }
    if |head| != 8 {
      return Failure(ShortRead);
    }
    var keyslen := U32At(head, 0);
    var strslen := U32At(head, 4);
    var full, eof2 := fr.Read(HeaderLen(keyslen, strslen));
    if eof2 {
      return Failure(EndOfFile);
    }
    if |full| != HeaderLen(keyslen, strslen) {
      return Failure(ShortRead);
    }
    var rd := new Reader(fr, keyslen, full);
    return Success(rd);
  }
}
