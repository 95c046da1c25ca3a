/** The per-unit cross-reference record of the indexer (kythe/cs/cmd/index/index.go):
    locations, located nodes, relationships, the `TUInfo` record with its own
    string table, and the merge and dedup operations on it. */
module Records {
  import opened Sorting
  import opened Interner

  /** A byte range in a file; the path is a handle into the record's table. */
  datatype Loc = Loc(path: StrIndex, startByte: int, endByte: int)

  /** A located node: where it is, its qualified name, the node it stands for
      and whether it is exempt from the "unreferenced" marker. */
  datatype LocNode = LocNode(l: Loc, name: StrIndex, vn: StrIndex, noUnref: bool)

  /** Go's `RelKind` is a bool: false derives, true overrides. */
  datatype RelKind = Derives | Overrides

  datatype Rel = Rel(kind: RelKind, src: StrIndex, dst: StrIndex)

  /** `byLocNodeAll.Less`: path, then start, end, name and node; `noUnref`
      takes no part. */
  predicate NodeLess(a: LocNode, b: LocNode) {
    if a.l.path != b.l.path then a.l.path < b.l.path
    else if a.l.startByte != b.l.startByte then a.l.startByte < b.l.startByte
    else if a.l.endByte != b.l.endByte then a.l.endByte < b.l.endByte
    else if a.name != b.name then a.name < b.name
    else a.vn < b.vn
  }

  /** The order a sorted slice is in: no later element is `Less` than an earlier one. */
  predicate NodeLe(a: LocNode, b: LocNode) {
    !NodeLess(b, a)
  }

  /** `byRelAll.Less`: derives before overrides, then source, then destination. */
  predicate RelLess(a: Rel, b: Rel) {
    if a.kind != b.kind then a.kind == Derives
    else if a.src != b.src then a.src < b.src
    else a.dst < b.dst
  }

  predicate RelLe(a: Rel, b: Rel) {
    !RelLess(b, a)
  }

  lemma NodeOrder()
    ensures Total(NodeLe) && Transitive(NodeLe)
  {
  }

  lemma RelOrder()
    ensures Total(RelLe) && Transitive(RelLe)
  {
  }

  /** Two nodes the order cannot tell apart differ at most in `noUnref`. */
  lemma NodeLessTies(a: LocNode, b: LocNode)
    requires !NodeLess(a, b) && !NodeLess(b, a)
    ensures a.l == b.l && a.name == b.name && a.vn == b.vn
  {
  }

  /** `dedupXrefList`: sort the list, then compact equal neighbours. */
  method DedupXrefList(xrefs: seq<LocNode>) returns (r: seq<LocNode>)
    ensures r == Deduped(xrefs, NodeLe)
    ensures SortedBy(r, NodeLe) && NoAdjacentEqual(r)
    ensures forall x :: x in r <==> x in xrefs
    ensures |r| <= |xrefs|
  {
    var xr := InsertionSort(xrefs, NodeLe);
    r := CompactAdjacent(xr);
    NodeOrder();
    DedupedProperties(xrefs, NodeLe);
  }

  /** `dedupRelList`: sort the list, then compact equal neighbours. */
  method DedupRelList(rels: seq<Rel>) returns (r: seq<Rel>)
    ensures r == Deduped(rels, RelLe)
    ensures SortedBy(r, RelLe) && NoAdjacentEqual(r)
    ensures forall x :: x in r <==> x in rels
    ensures |r| <= |rels|
  {
    var xr := InsertionSort(rels, RelLe);
    r := CompactAdjacent(xr);
    RelOrder();
    DedupedProperties(rels, RelLe);
  }

  /** Dedup leaves no equal neighbours, but equal entries need not be
      neighbours: the order ignores `noUnref`, so an entry that differs only
      there can sit between two copies of another and keep them apart. */
  lemma DedupMayKeepDuplicates()
    ensures var a := LocNode(Loc(0, 0, 0), 0, 0, false);
            var b := LocNode(Loc(0, 0, 0), 0, 0, true);
            Deduped([a, b, a], NodeLe) == [a, b, a]
  {
    var a := LocNode(Loc(0, 0, 0), 0, 0, false);
    var b := LocNode(Loc(0, 0, 0), 0, 0, true);
    assert InsertionSort([a], NodeLe) == [a];
    assert [b, a][1..] == [a];
    assert InsertionSort([b, a], NodeLe) == [b, a];
    assert [a, b, a][1..] == [b, a];
    assert InsertionSort([a, b, a], NodeLe) == [a, b, a];
    var s := [a, b, a];
    assert s[..2] == [a, b] && [a, b][..1] == [a];
    assert Compacted([a, b]) == [a, b];
  }

  /** A located node with its handles replaced by the strings behind them. */
  datatype NodeText = NodeText(path: string, startByte: int, endByte: int, name: string, vn: string, noUnref: bool)

  datatype RelText = RelText(kind: RelKind, src: string, dst: string)

  predicate NodeIn(n: LocNode, size: nat) {
    n.l.path < size && n.name < size && n.vn < size
  }

  predicate NodesIn(s: seq<LocNode>, size: nat) {
    forall i :: 0 <= i < |s| ==> NodeIn(s[i], size)
  }

  predicate RelIn(r: Rel, size: nat) {
    r.src < size && r.dst < size
  }

  predicate RelsIn(s: seq<Rel>, size: nat) {
    forall i :: 0 <= i < |s| ==> RelIn(s[i], size)
  }

  function ResolveNode(tab: seq<string>, n: LocNode): NodeText
    requires NodeIn(n, |tab|)
  {
    NodeText(tab[n.l.path], n.l.startByte, n.l.endByte, tab[n.name], tab[n.vn], n.noUnref)
  }

  function ResolveRel(tab: seq<string>, r: Rel): RelText
    requires RelIn(r, |tab|)
  {
    RelText(r.kind, tab[r.src], tab[r.dst])
  }

  /** The logical content of a list: the set of its entries, read through the table. */
  function ResolvedNodes(tab: seq<string>, s: seq<LocNode>): set<NodeText>
    requires NodesIn(s, |tab|)
  {
    set i | 0 <= i < |s| :: ResolveNode(tab, s[i])
  }

  function ResolvedRels(tab: seq<string>, s: seq<Rel>): set<RelText>
    requires RelsIn(s, |tab|)
  {
    set i | 0 <= i < |s| :: ResolveRel(tab, s[i])
  }

  /** `after` is `before` followed by `source`, each appended entry re-expressed
      in `tab` with the strings it had in `from` and its other fields as they were. */
  ghost predicate MergedNodes(before: seq<LocNode>, after: seq<LocNode>, source: seq<LocNode>,
                              tab: seq<string>, from: seq<string>)
  {
    && NodesIn(after, |tab|) && NodesIn(source, |from|)
    && |after| == |before| + |source|
    && after[..|before|] == before
    && forall k :: 0 <= k < |source| ==> ResolveNode(tab, after[|before| + k]) == ResolveNode(from, source[k])
  }

  ghost predicate MergedRels(before: seq<Rel>, after: seq<Rel>, source: seq<Rel>,
                             tab: seq<string>, from: seq<string>)
  {
    && RelsIn(after, |tab|) && RelsIn(source, |from|)
    && |after| == |before| + |source|
    && after[..|before|] == before
    && forall k :: 0 <= k < |source| ==> ResolveRel(tab, after[|before| + k]) == ResolveRel(from, source[k])
  }

  /** A handle keeps its string when the table grows at the end. */
  lemma ResolveNodeStable(tab: seq<string>, tab': seq<string>, n: LocNode)
    requires NodeIn(n, |tab|) && tab <= tab'
    ensures NodeIn(n, |tab'|) && ResolveNode(tab', n) == ResolveNode(tab, n)
  {
    assert tab'[n.l.path] == tab[n.l.path] && tab'[n.name] == tab[n.name] && tab'[n.vn] == tab[n.vn];
  }

  lemma ResolveRelStable(tab: seq<string>, tab': seq<string>, r: Rel)
    requires RelIn(r, |tab|) && tab <= tab'
    ensures RelIn(r, |tab'|) && ResolveRel(tab', r) == ResolveRel(tab, r)
  {
    assert tab'[r.src] == tab[r.src] && tab'[r.dst] == tab[r.dst];
  }

  /** Handles keep their strings when the table grows at the end. */
  lemma MergedNodesStable(before: seq<LocNode>, after: seq<LocNode>, source: seq<LocNode>,
                          tab: seq<string>, tab': seq<string>, from: seq<string>)
    requires MergedNodes(before, after, source, tab, from) && tab <= tab'
    ensures MergedNodes(before, after, source, tab', from)
  {
    forall k | 0 <= k < |source|
      ensures ResolveNode(tab', after[|before| + k]) == ResolveNode(from, source[k])
    {
      var n := after[|before| + k];
      assert NodeIn(n, |tab|);
      assert tab'[n.l.path] == tab[n.l.path] && tab'[n.name] == tab[n.name] && tab'[n.vn] == tab[n.vn];
    }
  }

  lemma MergedRelsStable(before: seq<Rel>, after: seq<Rel>, source: seq<Rel>,
                         tab: seq<string>, tab': seq<string>, from: seq<string>)
    requires MergedRels(before, after, source, tab, from) && tab <= tab'
    ensures MergedRels(before, after, source, tab', from)
  {
    forall k | 0 <= k < |source|
      ensures ResolveRel(tab', after[|before| + k]) == ResolveRel(from, source[k])
    {
      var r := after[|before| + k];
      assert RelIn(r, |tab|);
      assert tab'[r.src] == tab[r.src] && tab'[r.dst] == tab[r.dst];
    }
  }

  /** A merge adds to a list's logical content exactly the source's. */
  lemma MergedNodesContent(before: seq<LocNode>, after: seq<LocNode>, source: seq<LocNode>,
                           tab: seq<string>, from: seq<string>)
    requires MergedNodes(before, after, source, tab, from) && NodesIn(before, |tab|)
    ensures ResolvedNodes(tab, after) == ResolvedNodes(tab, before) + ResolvedNodes(from, source)
  {
    forall t | t in ResolvedNodes(tab, after)
      ensures t in ResolvedNodes(tab, before) + ResolvedNodes(from, source)
    {
      var i :| 0 <= i < |after| && t == ResolveNode(tab, after[i]);
      if i < |before| {
        assert after[i] == after[..|before|][i];
      } else {
        assert ResolveNode(tab, after[|before| + (i - |before|)]) == ResolveNode(from, source[i - |before|]);
      }
    }
    forall t | t in ResolvedNodes(tab, before) ensures t in ResolvedNodes(tab, after) {
      var i :| 0 <= i < |before| && t == ResolveNode(tab, before[i]);
      assert before[i] == after[..|before|][i] == after[i];
    }
    forall t | t in ResolvedNodes(from, source) ensures t in ResolvedNodes(tab, after) {
      var k :| 0 <= k < |source| && t == ResolveNode(from, source[k]);
      assert t == ResolveNode(tab, after[|before| + k]);
    }
  }

  lemma MergedRelsContent(before: seq<Rel>, after: seq<Rel>, source: seq<Rel>,
                          tab: seq<string>, from: seq<string>)
    requires MergedRels(before, after, source, tab, from) && RelsIn(before, |tab|)
    ensures ResolvedRels(tab, after) == ResolvedRels(tab, before) + ResolvedRels(from, source)
  {
    forall t | t in ResolvedRels(tab, after)
      ensures t in ResolvedRels(tab, before) + ResolvedRels(from, source)
    {
      var i :| 0 <= i < |after| && t == ResolveRel(tab, after[i]);
      if i < |before| {
        assert after[i] == after[..|before|][i];
      } else {
        assert ResolveRel(tab, after[|before| + (i - |before|)]) == ResolveRel(from, source[i - |before|]);
      }
    }
    forall t | t in ResolvedRels(tab, before) ensures t in ResolvedRels(tab, after) {
      var i :| 0 <= i < |before| && t == ResolveRel(tab, before[i]);
      assert before[i] == after[..|before|][i] == after[i];
    }
    forall t | t in ResolvedRels(from, source) ensures t in ResolvedRels(tab, after) {
      var k :| 0 <= k < |source| && t == ResolveRel(from, source[k]);
      assert t == ResolveRel(tab, after[|before| + k]);
    }
  }

  /** Dedup keeps a list's logical content. */
  lemma SameElementsSameContent(s: seq<LocNode>, s': seq<LocNode>, tab: seq<string>)
    requires NodesIn(s, |tab|)
    requires forall x :: x in s' <==> x in s
    ensures NodesIn(s', |tab|)
    ensures ResolvedNodes(tab, s') == ResolvedNodes(tab, s)
  {
    forall i | 0 <= i < |s'| ensures NodeIn(s'[i], |tab|) {
      assert s'[i] in s;
    }
    forall t | t in ResolvedNodes(tab, s') ensures t in ResolvedNodes(tab, s) {
      var i :| 0 <= i < |s'| && t == ResolveNode(tab, s'[i]);
      assert s'[i] in s;
      var j :| 0 <= j < |s| && s[j] == s'[i];
    }
    forall t | t in ResolvedNodes(tab, s) ensures t in ResolvedNodes(tab, s') {
      var i :| 0 <= i < |s| && t == ResolveNode(tab, s[i]);
      assert s[i] in s';
      var j :| 0 <= j < |s'| && s'[j] == s[i];
    }
  }

  lemma SameRelsSameContent(s: seq<Rel>, s': seq<Rel>, tab: seq<string>)
    requires RelsIn(s, |tab|)
    requires forall x :: x in s' <==> x in s
    ensures RelsIn(s', |tab|)
    ensures ResolvedRels(tab, s') == ResolvedRels(tab, s)
  {
    forall i | 0 <= i < |s'| ensures RelIn(s'[i], |tab|) {
      assert s'[i] in s;
    }
    forall t | t in ResolvedRels(tab, s') ensures t in ResolvedRels(tab, s) {
      var i :| 0 <= i < |s'| && t == ResolveRel(tab, s'[i]);
      assert s'[i] in s;
      var j :| 0 <= j < |s| && s[j] == s'[i];
    }
    forall t | t in ResolvedRels(tab, s) ensures t in ResolvedRels(tab, s') {
      var i :| 0 <= i < |s| && t == ResolveRel(tab, s[i]);
      assert s[i] in s';
      var j :| 0 <= j < |s'| && s'[j] == s[i];
    }
  }

  /** Deduplication keeps a list's handles in range and its logical content. */
  lemma DedupedNodesContent(s: seq<LocNode>, tab: seq<string>)
    requires NodesIn(s, |tab|)
    ensures NodesIn(Deduped(s, NodeLe), |tab|)
    ensures ResolvedNodes(tab, Deduped(s, NodeLe)) == ResolvedNodes(tab, s)
  {
    NodeOrder();
    DedupedProperties(s, NodeLe);
    SameElementsSameContent(s, Deduped(s, NodeLe), tab);
  }

  /** `dedupXrefList` on a list whose string indices are below `n`: the
      result keeps them below `n`. */
  method DedupNodesWithin(s: seq<LocNode>, n: nat) returns (r: seq<LocNode>)
    requires NodesIn(s, n)
    ensures r == Deduped(s, NodeLe) && NodesIn(r, n)
  {
    r := DedupXrefList(s);
    forall i | 0 <= i < |r| ensures NodeIn(r[i], n) {
      assert r[i] in s;
    }
  }

  /** `dedupRelList` on a list whose string indices are below `n`. */
  method DedupRelsWithin(s: seq<Rel>, n: nat) returns (r: seq<Rel>)
    requires RelsIn(s, n)
    ensures r == Deduped(s, RelLe) && RelsIn(r, n)
  {
    r := DedupRelList(s);
    forall i | 0 <= i < |r| ensures RelIn(r[i], n) {
      assert r[i] in s;
    }
  }

  lemma DedupedRelsContent(s: seq<Rel>, tab: seq<string>)
    requires RelsIn(s, |tab|)
    ensures RelsIn(Deduped(s, RelLe), |tab|)
    ensures ResolvedRels(tab, Deduped(s, RelLe)) == ResolvedRels(tab, s)
  {
    RelOrder();
    DedupedProperties(s, RelLe);
    SameRelsSameContent(s, Deduped(s, RelLe), tab);
  }

  /** A `TUInfo` as it comes out of deserialization: five lists and the bare
      strings of its table. */
  datatype Record = Record(incs: seq<LocNode>, refs: seq<LocNode>, defs: seq<LocNode>,
                           comps: seq<LocNode>, rels: seq<Rel>, strs: seq<string>)
  {
    predicate WellFormed() {
      && NodesIn(incs, |strs|) && NodesIn(refs, |strs|) && NodesIn(defs, |strs|)
      && NodesIn(comps, |strs|) && RelsIn(rels, |strs|)
    }
  }

  /** The record being built or merged into, updated in place. */
  class TUInfo {
    var incs: seq<LocNode>
    var refs: seq<LocNode>
    var defs: seq<LocNode>
    var comps: seq<LocNode>
    var rels: seq<Rel>
    const strs: StrTab

    /** Every handle in every list is a handle of the record's own table. */
    ghost predicate Valid()
      reads this, strs
    {
      && strs.Valid()
      && NodesIn(incs, |strs.strs|) && NodesIn(refs, |strs.strs|) && NodesIn(defs, |strs.strs|)
      && NodesIn(comps, |strs.strs|) && RelsIn(rels, |strs.strs|)
    }

    /** The zero value of a `TUInfo`. */
    constructor ()
      ensures Valid() && strs.Writable() && fresh(strs)
      ensures incs == [] && refs == [] && defs == [] && comps == [] && rels == []
      ensures strs.strs == []
    {
      incs, refs, defs, comps, rels := [], [], [], [], [];
      strs := new StrTab.Empty();
    }

    /** The three `idx` calls of `mergeXrefList` for one entry: its strings,
        read from `from`, re-interned into this table. */
    method ReinternNode(n: LocNode, from: seq<string>) returns (n': LocNode)
      requires strs.Valid() && strs.Writable() && NodeIn(n, |from|)
      modifies strs
      ensures strs.Valid() && strs.Writable()
      ensures old(strs.strs) <= strs.strs
      ensures NodeIn(n', |strs.strs|) && ResolveNode(strs.strs, n') == ResolveNode(from, n)
    {
      var path := strs.Idx(from[n.l.path]);
      assert path.Success?;
      var name := strs.Idx(from[n.name]);
      assert name.Success?;
      var vn := strs.Idx(from[n.vn]);
      assert vn.Success?;
      n' := LocNode(Loc(path.value, n.l.startByte, n.l.endByte), name.value, vn.value, n.noUnref);
    }

    /** `mergeXrefList`: append `source` to `target`, then re-intern the three
        strings of every appended entry, read from `from`, into this table. */
    method MergeXrefList(target: seq<LocNode>, source: seq<LocNode>, from: seq<string>) returns (t: seq<LocNode>)
      requires strs.Valid() && strs.Writable()
      requires NodesIn(target, |strs.strs|) && NodesIn(source, |from|)
      modifies strs
      ensures strs.Valid() && strs.Writable()
      ensures old(strs.strs) <= strs.strs
      ensures MergedNodes(target, t, source, strs.strs, from)
    {
      var offset := |target|;
      t := target + source;
      var i := offset;
      while i != |t|
        decreases |t| - i
        invariant offset <= i <= |t| == offset + |source|
        invariant strs.Valid() && strs.Writable()
        invariant old(strs.strs) <= strs.strs
        invariant forall k :: 0 <= k < offset ==> t[k] == target[k]
        invariant forall k :: i <= k < |t| ==> t[k] == source[k - offset]
        invariant forall k :: 0 <= k < i ==> NodeIn(t[k], |strs.strs|)
        invariant forall k :: offset <= k < i ==> ResolveNode(strs.strs, t[k]) == ResolveNode(from, source[k - offset])
      {
        ghost var tab0 := strs.strs;
        var n' := ReinternNode(t[i], from);
        forall k | 0 <= k < i
          ensures ResolveNode(strs.strs, t[k]) == ResolveNode(tab0, t[k])
        {
          ResolveNodeStable(tab0, strs.strs, t[k]);
        }
        t := t[i := n'];
        i := i + 1;
      }
      assert t[..offset] == target;
    }

    /** The two `idx` calls of `mergeRelList` for one relationship. */
    method ReinternRel(r: Rel, from: seq<string>) returns (r': Rel)
      requires strs.Valid() && strs.Writable() && RelIn(r, |from|)
      modifies strs
      ensures strs.Valid() && strs.Writable()
      ensures old(strs.strs) <= strs.strs
      ensures RelIn(r', |strs.strs|) && ResolveRel(strs.strs, r') == ResolveRel(from, r)
    {
      var src := strs.Idx(from[r.src]);
      assert src.Success?;
      var dst := strs.Idx(from[r.dst]);
      assert dst.Success?;
      r' := Rel(r.kind, src.value, dst.value);
    }

    /** `mergeRelList`: the same for relationships. */
    method MergeRelList(target: seq<Rel>, source: seq<Rel>, from: seq<string>) returns (t: seq<Rel>)
      requires strs.Valid() && strs.Writable()
      requires RelsIn(target, |strs.strs|) && RelsIn(source, |from|)
      modifies strs
      ensures strs.Valid() && strs.Writable()
      ensures old(strs.strs) <= strs.strs
      ensures MergedRels(target, t, source, strs.strs, from)
    {
      var offset := |target|;
      t := target + source;
      var i := offset;
      while i != |t|
        decreases |t| - i
        invariant offset <= i <= |t| == offset + |source|
        invariant strs.Valid() && strs.Writable()
        invariant old(strs.strs) <= strs.strs
        invariant forall k :: 0 <= k < offset ==> t[k] == target[k]
        invariant forall k :: i <= k < |t| ==> t[k] == source[k - offset]
        invariant forall k :: 0 <= k < i ==> RelIn(t[k], |strs.strs|)
        invariant forall k :: offset <= k < i ==> ResolveRel(strs.strs, t[k]) == ResolveRel(from, source[k - offset])
      {
        ghost var tab0 := strs.strs;
        var r' := ReinternRel(t[i], from);
        forall k | 0 <= k < i
          ensures ResolveRel(strs.strs, t[k]) == ResolveRel(tab0, t[k])
        {
          ResolveRelStable(tab0, strs.strs, t[k]);
        }
        t := t[i := r'];
        i := i + 1;
      }
      assert t[..offset] == target;
    }

    /** `merge`: append all five lists of `other`, re-interning their strings. */
    method Merge(other: Record)
      requires Valid() && strs.Writable() && other.WellFormed()
      modifies this, strs
      ensures Valid() && strs.Writable()
      ensures old(strs.strs) <= strs.strs
      ensures MergedNodes(old(incs), incs, other.incs, strs.strs, other.strs)
      ensures MergedNodes(old(refs), refs, other.refs, strs.strs, other.strs)
      ensures MergedNodes(old(defs), defs, other.defs, strs.strs, other.strs)
      ensures MergedNodes(old(comps), comps, other.comps, strs.strs, other.strs)
      ensures MergedRels(old(rels), rels, other.rels, strs.strs, other.strs)
    {
      ghost var t0 := strs.strs;
      incs := MergeXrefList(incs, other.incs, other.strs);
      ghost var t1 := strs.strs;
      refs := MergeXrefList(refs, other.refs, other.strs);
      ghost var t2 := strs.strs;
      defs := MergeXrefList(defs, other.defs, other.strs);
      ghost var t3 := strs.strs;
      comps := MergeXrefList(comps, other.comps, other.strs);
      ghost var t4 := strs.strs;
      rels := MergeRelList(rels, other.rels, other.strs);
      ghost var t5 := strs.strs;
      MergedNodesStable(old(incs), incs, other.incs, t1, t5, other.strs);
      MergedNodesStable(old(refs), refs, other.refs, t2, t5, other.strs);
      MergedNodesStable(old(defs), defs, other.defs, t3, t5, other.strs);
      MergedNodesStable(old(comps), comps, other.comps, t4, t5, other.strs);
    }

    /** `dedup`: sort and compact each of the five lists. */
    method Dedup()
      requires Valid()
      modifies this
      ensures Valid()
      ensures incs == Deduped(old(incs), NodeLe) && refs == Deduped(old(refs), NodeLe)
      ensures defs == Deduped(old(defs), NodeLe) && comps == Deduped(old(comps), NodeLe)
      ensures rels == Deduped(old(rels), RelLe)
    {
      var n := |strs.strs|;
      var i' := DedupNodesWithin(incs, n);
      var r' := DedupNodesWithin(refs, n);
      var d' := DedupNodesWithin(defs, n);
      var c' := DedupNodesWithin(comps, n);
      var l' := DedupRelsWithin(rels, n);
      incs, refs, defs, comps, rels := i', r', d', c', l';
    }
  }
}
