/** The corpus-wide graph resolver of the indexer (`corpusindex.finish` and
    its helpers in kythe/cs/cmd/index/index.go).

    The function is one long sequence of loops over the merged record.  Each
    loop is a method below, proved equal to a fold of a step function over the
    list it walks; the step functions are the specification, and the lemmas
    about the folds state what each phase achieves.  Go's maps are values here
    (`xrefmap` is `Graph.xrefs`, `compmap` is `Combined.recs`), each kept with
    the order its keys were first added in, which is the order the model
    iterates them in.  The `*[]Loc` pointers of the source are cells of an
    arena, `Graph.cells`; `Ptr.Nil` is Go's nil pointer. */
module Resolver {
  import opened Wrappers
  import opened Seqs
  import opened Sorting
  import opened Numbers
  import opened Interner
  import opened Records
  import opened DefIndex

  /** A Go `*[]Loc`: nil, or a cell of the arena. */
  datatype Ptr = Nil | At(cell: nat)

  /** `xreflist`: what the resolver has gathered about one node. */
  datatype XrefList = XrefList(qname: StrIndex, refs: seq<Loc>, defs: seq<Loc>,
                               derivers: Ptr, overrides: Ptr, overriders: Ptr,
                               toUpdate: seq<Ptr>, nounref: bool)

  /** `xrefmap`, the order its keys were added in, and the arena. */
  datatype Graph = Graph(xrefs: map<StrIndex, XrefList>, order: seq<StrIndex>, cells: seq<seq<Loc>>)

  const EmptyGraph: Graph := Graph(map[], [], [])

  predicate Distinct<T(==)>(s: seq<T>) {
    forall i, j :: 0 <= i < j < |s| ==> s[i] != s[j]
  }

  /** The locations of a list of located nodes. */
  function LocSet(s: seq<LocNode>): set<Loc> {
    set i | 0 <= i < |s| :: s[i].l
  }

  lemma LocSetSnoc(s: seq<LocNode>, i: nat)
    requires i < |s|
    ensures LocSet(s[..i + 1]) == LocSet(s[..i]) + {s[i].l}
  {
    var p, q := s[..i + 1], s[..i];
    forall l | l in LocSet(p) ensures l in LocSet(q) + {s[i].l} {
      var k :| 0 <= k < |p| && p[k].l == l;
      if k < i { assert q[k] == p[k]; }
    }
    forall l | l in LocSet(q) + {s[i].l} ensures l in LocSet(p) {
      if l == s[i].l {
        assert p[i].l == l;
      } else {
        var k :| 0 <= k < |q| && q[k].l == l;
        assert p[k] == q[k];
      }
    }
  }

  // ---------------------------------------------------------------------
  // Definitions

  /** `xrefsFor`: the node of `d` gets an xreflist, named after `d`, unless it
      already has one. */
  function XrefsFor(g: Graph, d: LocNode): (g': Graph)
    ensures d.vn in g'.xrefs && g'.xrefs.Keys == g.xrefs.Keys + {d.vn} && g'.cells == g.cells
  {
    if d.vn in g.xrefs then g
    else Graph(g.xrefs[d.vn := XrefList(d.name, [], [], Nil, Nil, Nil, [], false)], g.order + [d.vn], g.cells)
  }

  /** One iteration of the definitions loop. */
  function DefStep(g: Graph, d: LocNode): Graph {
    var g1 := XrefsFor(g, d);
    var xr := g1.xrefs[d.vn];
    g1.(xrefs := g1.xrefs[d.vn := xr.(defs := xr.defs + [d.l], nounref := xr.nounref || d.noUnref)])
  }

  function DefsFold(g: Graph, defs: seq<LocNode>): Graph {
    if defs == [] then g else DefStep(DefsFold(g, defs[..|defs| - 1]), defs[|defs| - 1])
  }

  /** The locations of the entries of `s` that stand for node `vn`, in order. */
  function LocsFor(s: seq<LocNode>, vn: StrIndex): seq<Loc> {
    if s == [] then []
    else LocsFor(s[..|s| - 1], vn) + (if s[|s| - 1].vn == vn then [s[|s| - 1].l] else [])
  }

  lemma {:induction false} LocsForAbsent(s: seq<LocNode>, vn: StrIndex)
    requires forall j :: 0 <= j < |s| ==> s[j].vn != vn
    ensures LocsFor(s, vn) == []
  {
    if s != [] {
      LocsForAbsent(s[..|s| - 1], vn);
    }
  }

  /** The xreflist the definitions loop leaves for `vn`: named after the first
      definition of `vn`, holding every definition location of `vn` in order,
      exempt from the unreferenced marker if any of them is, and nothing else. */
  ghost predicate Grouped(xr: XrefList, defs: seq<LocNode>, vn: StrIndex) {
    && xr.refs == [] && xr.toUpdate == []
    && xr.derivers == Nil && xr.overrides == Nil && xr.overriders == Nil
    && xr.defs == LocsFor(defs, vn)
    && (xr.nounref <==> exists i :: 0 <= i < |defs| && defs[i].vn == vn && defs[i].noUnref)
    && exists i :: 0 <= i < |defs| && defs[i].vn == vn && xr.qname == defs[i].name
                   && forall j :: 0 <= j < i ==> defs[j].vn != vn
  }

  ghost predicate GroupedGraph(g: Graph, defs: seq<LocNode>) {
    && g.cells == [] && Distinct(g.order)
    && (forall vn :: vn in g.xrefs <==> vn in g.order)
    && (forall vn :: vn in g.xrefs <==> exists i :: 0 <= i < |defs| && defs[i].vn == vn)
    && (forall vn :: vn in g.xrefs ==> Grouped(g.xrefs[vn], defs, vn))
  }

  /** Definitions are grouped per node: a node has an xreflist exactly when it
      has a definition, and the list is as `Grouped` says. */
  lemma {:induction false} DefsGrouped(defs: seq<LocNode>)
    ensures GroupedGraph(DefsFold(EmptyGraph, defs), defs)
  {
    if defs != [] {
      var init, d := defs[..|defs| - 1], defs[|defs| - 1];
      DefsGrouped(init);
      var g0 := DefsFold(EmptyGraph, init);
      assert init + [d] == defs;
      DefStepGrouped(g0, init, d);
    }
  }

  lemma DefStepGrouped(g0: Graph, init: seq<LocNode>, d: LocNode)
    requires GroupedGraph(g0, init)
    ensures GroupedGraph(DefStep(g0, d), init + [d])
  {
    var defs := init + [d];
    var g := DefStep(g0, d);
    forall vn | vn in g.xrefs ensures Grouped(g.xrefs[vn], defs, vn) {
      DefStepGroupedAt(g0, init, d, vn);
    }
    forall vn | vn in g.xrefs ensures exists i :: 0 <= i < |defs| && defs[i].vn == vn {
      if vn == d.vn {
        assert defs[|init|].vn == vn;
      } else {
        var i :| 0 <= i < |init| && init[i].vn == vn;
        assert defs[i].vn == vn;
      }
    }
    forall vn | exists i :: 0 <= i < |defs| && defs[i].vn == vn ensures vn in g.xrefs {
      var i :| 0 <= i < |defs| && defs[i].vn == vn;
      if i < |init| { assert init[i] == defs[i]; }
    }
  }

  lemma LocsForSnoc(init: seq<LocNode>, d: LocNode, vn: StrIndex)
    ensures LocsFor(init + [d], vn) == LocsFor(init, vn) + (if d.vn == vn then [d.l] else [])
  {
    assert (init + [d])[..|init|] == init;
  }

  /** A definition of another node leaves a grouped xreflist grouped. */
  lemma GroupedOther(xr: XrefList, init: seq<LocNode>, d: LocNode, vn: StrIndex)
    requires Grouped(xr, init, vn) && d.vn != vn
    ensures Grouped(xr, init + [d], vn)
  {
    var defs := init + [d];
    LocsForSnoc(init, d, vn);
    var i :| 0 <= i < |init| && init[i].vn == vn && xr.qname == init[i].name
             && forall j :: 0 <= j < i ==> init[j].vn != vn;
    assert defs[i] == init[i];
    assert forall j :: 0 <= j < i ==> defs[j] == init[j];
    if xr.nounref {
      var k :| 0 <= k < |init| && init[k].vn == vn && init[k].noUnref;
      assert defs[k] == init[k];
    }
    if exists k :: 0 <= k < |defs| && defs[k].vn == vn && defs[k].noUnref {
      var k :| 0 <= k < |defs| && defs[k].vn == vn && defs[k].noUnref;
      assert k < |init| && init[k] == defs[k];
    }
  }

  /** A further definition of a node adds its location to the node's list. */
  lemma GroupedAgain(xr: XrefList, init: seq<LocNode>, d: LocNode)
    requires Grouped(xr, init, d.vn)
    ensures Grouped(xr.(defs := xr.defs + [d.l], nounref := xr.nounref || d.noUnref), init + [d], d.vn)
  {
    var defs, vn := init + [d], d.vn;
    LocsForSnoc(init, d, vn);
    var i :| 0 <= i < |init| && init[i].vn == vn && xr.qname == init[i].name
             && forall j :: 0 <= j < i ==> init[j].vn != vn;
    assert defs[i] == init[i];
    assert forall j :: 0 <= j < i ==> defs[j] == init[j];
    if xr.nounref {
      var k :| 0 <= k < |init| && init[k].vn == vn && init[k].noUnref;
      assert defs[k] == init[k];
    }
    if d.noUnref {
      assert defs[|init|] == d;
    }
    if exists k :: 0 <= k < |defs| && defs[k].vn == vn && defs[k].noUnref {
      var k :| 0 <= k < |defs| && defs[k].vn == vn && defs[k].noUnref;
      if k < |init| { assert init[k] == defs[k]; }
    }
  }

  /** The first definition of a node gives it a list of its own. */
  lemma GroupedNew(init: seq<LocNode>, d: LocNode)
    requires forall j :: 0 <= j < |init| ==> init[j].vn != d.vn
    ensures Grouped(XrefList(d.name, [], [d.l], Nil, Nil, Nil, [], d.noUnref), init + [d], d.vn)
  {
    var defs, vn := init + [d], d.vn;
    LocsForSnoc(init, d, vn);
    LocsForAbsent(init, vn);
    assert defs[|init|] == d;
    assert forall j :: 0 <= j < |init| ==> defs[j] == init[j];
  }

  lemma DefStepGroupedAt(g0: Graph, init: seq<LocNode>, d: LocNode, vn: StrIndex)
    requires GroupedGraph(g0, init)
    requires vn in DefStep(g0, d).xrefs
    ensures Grouped(DefStep(g0, d).xrefs[vn], init + [d], vn)
  {
    var g := DefStep(g0, d);
    if vn != d.vn {
      assert g.xrefs[vn] == g0.xrefs[vn];
      GroupedOther(g0.xrefs[vn], init, d, vn);
    } else if vn in g0.xrefs {
      GroupedAgain(g0.xrefs[vn], init, d);
    } else {
      assert forall j :: 0 <= j < |init| ==> init[j].vn != vn;
      GroupedNew(init, d);
    }
  }

  /** The definitions loop, and the set `deflocs` of definition and completes
      locations it fills together with the completes loop before it. */
  method GroupDefs(comps: seq<LocNode>, defs: seq<LocNode>) returns (g: Graph, deflocs: set<Loc>)
    ensures g == DefsFold(EmptyGraph, defs)
    ensures deflocs == LocSet(comps) + LocSet(defs)
  {
    deflocs := {};
    for i := 0 to |comps|
      invariant deflocs == LocSet(comps[..i])
    {
      LocSetSnoc(comps, i);
      deflocs := deflocs + {comps[i].l};
    }
    assert comps[..|comps|] == comps;
    g := EmptyGraph;
    for i := 0 to |defs|
      invariant g == DefsFold(EmptyGraph, defs[..i])
      invariant deflocs == LocSet(comps) + LocSet(defs[..i])
    {
      LocSetSnoc(defs, i);
      assert defs[..i + 1][..i] == defs[..i];
      deflocs := deflocs + {defs[i].l};
      g := DefStep(g, defs[i]);
    }
    assert defs[..|defs|] == defs;
  }

  // ---------------------------------------------------------------------
  // References

  /** One iteration of the references loop: a reference at a definition or
      completes location, or to a node without definitions, is dropped. */
  function RefStep(g: Graph, r: LocNode, deflocs: set<Loc>): Graph {
    if r.l in deflocs || r.vn !in g.xrefs then g
    else
      var xr := g.xrefs[r.vn];
      g.(xrefs := g.xrefs[r.vn := xr.(refs := xr.refs + [r.l])])
  }

  function RefsFold(g: Graph, refs: seq<LocNode>, deflocs: set<Loc>): Graph {
    if refs == [] then g else RefStep(RefsFold(g, refs[..|refs| - 1], deflocs), refs[|refs| - 1], deflocs)
  }

  /** The locations of the references to `vn` that are not in `deflocs`, in order. */
  function KeptRefs(refs: seq<LocNode>, vn: StrIndex, deflocs: set<Loc>): seq<Loc> {
    if refs == [] then []
    else
      var r := refs[|refs| - 1];
      KeptRefs(refs[..|refs| - 1], vn, deflocs) + (if r.vn == vn && r.l !in deflocs then [r.l] else [])
  }

  /** The references loop adds to each known node exactly its kept references
      and changes nothing else. */
  lemma {:induction false} RefsFiltered(g: Graph, refs: seq<LocNode>, deflocs: set<Loc>)
    ensures var g' := RefsFold(g, refs, deflocs);
            && g'.order == g.order && g'.cells == g.cells && g'.xrefs.Keys == g.xrefs.Keys
            && forall vn :: vn in g.xrefs ==>
                 g'.xrefs[vn] == g.xrefs[vn].(refs := g.xrefs[vn].refs + KeptRefs(refs, vn, deflocs))
  {
    if refs != [] {
      var init := refs[..|refs| - 1];
      RefsFiltered(g, init, deflocs);
    }
  }

  /** A reference location is kept for `vn` exactly when it is not a
      definition or completes location and some reference to `vn` is there. */
  lemma {:induction false} KeptRefsMembers(refs: seq<LocNode>, vn: StrIndex, deflocs: set<Loc>, l: Loc)
    ensures l in KeptRefs(refs, vn, deflocs) <==>
            l !in deflocs && exists i :: 0 <= i < |refs| && refs[i].vn == vn && refs[i].l == l
  {
    if refs != [] {
      var init := refs[..|refs| - 1];
      KeptRefsMembers(init, vn, deflocs, l);
      assert forall i :: 0 <= i < |init| ==> refs[i] == init[i];
    }
  }

  /** The references loop. */
  method FilterRefs(g0: Graph, refs: seq<LocNode>, deflocs: set<Loc>) returns (g: Graph)
    ensures g == RefsFold(g0, refs, deflocs)
  {
    g := g0;
    for i := 0 to |refs|
      invariant g == RefsFold(g0, refs[..i], deflocs)
    {
      assert refs[..i + 1][..i] == refs[..i];
      var r := refs[i];
      if r.l !in deflocs && r.vn in g.xrefs {
        var xr := g.xrefs[r.vn];
        g := g.(xrefs := g.xrefs[r.vn := xr.(refs := xr.refs + [r.l])]);
      }
    }
    assert refs[..|refs|] == refs;
  }

  // ---------------------------------------------------------------------
  // Relationships

  /** `src.overrides = new([]Loc)` when it is still nil. */
  function WithOverrides(g: Graph, vn: StrIndex): (g': Graph)
    requires vn in g.xrefs
    ensures g'.xrefs.Keys == g.xrefs.Keys && g'.xrefs[vn].overrides.At?
  {
    var xr := g.xrefs[vn];
    if xr.overrides.At? then g
    else Graph(g.xrefs[vn := xr.(overrides := At(|g.cells|))], g.order, g.cells + [[]])
  }

  /** `dst.overriders = new([]Loc)` when it is still nil. */
  function WithOverriders(g: Graph, vn: StrIndex): (g': Graph)
    requires vn in g.xrefs
    ensures g'.xrefs.Keys == g.xrefs.Keys && g'.xrefs[vn].overriders.At?
  {
    var xr := g.xrefs[vn];
    if xr.overriders.At? then g
    else Graph(g.xrefs[vn := xr.(overriders := At(|g.cells|))], g.order, g.cells + [[]])
  }

  /** `dst.derivers = new([]Loc)`, whatever it was before. */
  function NewDerivers(g: Graph, vn: StrIndex): (g': Graph)
    requires vn in g.xrefs
    ensures g'.xrefs.Keys == g.xrefs.Keys
  {
    Graph(g.xrefs[vn := g.xrefs[vn].(derivers := At(|g.cells|))], g.order, g.cells + [[]])
  }

  /** Append `p` to the `toUpdate` list of `vn`. */
  function Queue(g: Graph, vn: StrIndex, p: Ptr): (g': Graph)
    requires vn in g.xrefs
    ensures g'.xrefs.Keys == g.xrefs.Keys
  {
    var xr := g.xrefs[vn];
    g.(xrefs := g.xrefs[vn := xr.(toUpdate := xr.toUpdate + [p])])
  }

  /** One iteration of the relationships loop, with the derives branch as the
      source writes it: it tests `dst.overriders` but allocates `dst.derivers`. */
  function RelStep(g: Graph, rel: Rel): Graph {
    if rel.src !in g.xrefs || rel.dst !in g.xrefs then g
    else match rel.kind
      case Overrides =>
        var g1 := WithOverrides(g, rel.src);
        var g2 := Queue(g1, rel.dst, g1.xrefs[rel.src].overrides);
        var g3 := WithOverriders(g2, rel.dst);
        Queue(g3, rel.src, g3.xrefs[rel.dst].overriders)
      case Derives =>
        var g1 := if g.xrefs[rel.dst].overriders == Nil then NewDerivers(g, rel.dst) else g;
        Queue(g1, rel.src, g1.xrefs[rel.dst].derivers)
  }

  function RelsFold(g: Graph, rels: seq<Rel>): Graph {
    if rels == [] then g else RelStep(RelsFold(g, rels[..|rels| - 1]), rels[|rels| - 1])
  }

  predicate PtrIn(p: Ptr, n: nat) {
    p.Nil? || p.cell < n
  }

  /** Every pointer of every xreflist is nil or names a cell of the arena. */
  ghost predicate CellsValid(g: Graph) {
    forall vn :: vn in g.xrefs ==>
      && PtrIn(g.xrefs[vn].derivers, |g.cells|) && PtrIn(g.xrefs[vn].overrides, |g.cells|)
      && PtrIn(g.xrefs[vn].overriders, |g.cells|)
      && forall k :: 0 <= k < |g.xrefs[vn].toUpdate| ==> PtrIn(g.xrefs[vn].toUpdate[k], |g.cells|)
  }

  /** What the relationships loop leaves alone: the nodes, their order, names,
      locations and markers, and the cells already allocated (new ones start
      empty). */
  ghost predicate RelsShape(g: Graph, g': Graph) {
    && g'.xrefs.Keys == g.xrefs.Keys && g'.order == g.order
    && (forall vn :: vn in g.xrefs ==>
          && g'.xrefs[vn].qname == g.xrefs[vn].qname && g'.xrefs[vn].refs == g.xrefs[vn].refs
          && g'.xrefs[vn].defs == g.xrefs[vn].defs && g'.xrefs[vn].nounref == g.xrefs[vn].nounref)
    && |g.cells| <= |g'.cells| && g'.cells[..|g.cells|] == g.cells
    && (forall c :: |g.cells| <= c < |g'.cells| ==> g'.cells[c] == [])
  }

  lemma ShapeTrans(g1: Graph, g2: Graph, g3: Graph)
    requires RelsShape(g1, g2) && RelsShape(g2, g3)
    ensures RelsShape(g1, g3)
  {
    assert g3.cells[..|g1.cells|] == g3.cells[..|g2.cells|][..|g1.cells|];
    forall c | |g1.cells| <= c < |g3.cells| ensures g3.cells[c] == [] {
      if c < |g2.cells| {
        assert g3.cells[c] == g3.cells[..|g2.cells|][c];
      }
    }
  }

  lemma QueueShape(g: Graph, vn: StrIndex, p: Ptr)
    requires vn in g.xrefs
    ensures RelsShape(g, Queue(g, vn, p))
    ensures CellsValid(g) && PtrIn(p, |g.cells|) ==> CellsValid(Queue(g, vn, p))
  {
    assert Queue(g, vn, p).cells == g.cells;
  }

  lemma WithOverridesShape(g: Graph, vn: StrIndex)
    requires vn in g.xrefs
    ensures RelsShape(g, WithOverrides(g, vn))
    ensures CellsValid(g) ==> CellsValid(WithOverrides(g, vn))
  {
    assert (g.cells + [[]])[..|g.cells|] == g.cells;
  }

  lemma WithOverridersShape(g: Graph, vn: StrIndex)
    requires vn in g.xrefs
    ensures RelsShape(g, WithOverriders(g, vn))
    ensures CellsValid(g) ==> CellsValid(WithOverriders(g, vn))
  {
    assert (g.cells + [[]])[..|g.cells|] == g.cells;
  }

  lemma NewDeriversShape(g: Graph, vn: StrIndex)
    requires vn in g.xrefs
    ensures RelsShape(g, NewDerivers(g, vn))
    ensures CellsValid(g) ==> CellsValid(NewDerivers(g, vn))
  {
    assert (g.cells + [[]])[..|g.cells|] == g.cells;
  }

  lemma RelStepShape(g: Graph, rel: Rel)
    ensures RelsShape(g, RelStep(g, rel))
    ensures CellsValid(g) ==> CellsValid(RelStep(g, rel))
  {
    if rel.src in g.xrefs && rel.dst in g.xrefs {
      match rel.kind
      case Overrides =>
        var g1 := WithOverrides(g, rel.src);
        WithOverridesShape(g, rel.src);
        var g2 := Queue(g1, rel.dst, g1.xrefs[rel.src].overrides);
        QueueShape(g1, rel.dst, g1.xrefs[rel.src].overrides);
        ShapeTrans(g, g1, g2);
        var g3 := WithOverriders(g2, rel.dst);
        WithOverridersShape(g2, rel.dst);
        ShapeTrans(g, g2, g3);
        QueueShape(g3, rel.src, g3.xrefs[rel.dst].overriders);
        ShapeTrans(g, g3, RelStep(g, rel));
      case Derives =>
        var g1 := if g.xrefs[rel.dst].overriders == Nil then NewDerivers(g, rel.dst) else g;
        NewDeriversShape(g, rel.dst);
        QueueShape(g1, rel.src, g1.xrefs[rel.dst].derivers);
        if g1 != g {
          ShapeTrans(g, g1, RelStep(g, rel));
        }
    }
  }

  /** The relationships loop keeps the shape of the graph, and no pointer
      dangles afterwards if none did before. */
  lemma {:induction false} RelsFoldShape(g: Graph, rels: seq<Rel>)
    ensures RelsShape(g, RelsFold(g, rels))
    ensures CellsValid(g) ==> CellsValid(RelsFold(g, rels))
  {
    if rels != [] {
      var g0 := RelsFold(g, rels[..|rels| - 1]);
      RelsFoldShape(g, rels[..|rels| - 1]);
      RelStepShape(g0, rels[|rels| - 1]);
      ShapeTrans(g, g0, RelStep(g0, rels[|rels| - 1]));
    } else {
      assert g.cells[..|g.cells|] == g.cells;
    }
  }

  /** An overrides relationship between two different known nodes queues two
      real cells: the source's `overrides` on the destination and the
      destination's `overriders` on the source, allocating each only if it
      was still nil. */
  lemma OverridesQueued(g: Graph, rel: Rel)
    requires rel.kind == Overrides && rel.src != rel.dst
    requires rel.src in g.xrefs && rel.dst in g.xrefs
    ensures var g' := RelStep(g, rel);
            var s, d := g.xrefs[rel.src], g.xrefs[rel.dst];
            var s', d' := g'.xrefs[rel.src], g'.xrefs[rel.dst];
            && s'.overrides.At? && d'.overriders.At?
            && (s.overrides.At? ==> s'.overrides == s.overrides)
            && (d.overriders.At? ==> d'.overriders == d.overriders)
            && d'.toUpdate == d.toUpdate + [s'.overrides]
            && s'.toUpdate == s.toUpdate + [d'.overriders]
            && s'.derivers == s.derivers && d'.derivers == d.derivers
  {
  }

  /** The derives branch as written.  When the destination has no
      `overriders` cell, a fresh `derivers` cell replaces whatever it had, so
      sources queued on the old cell no longer reach the destination's
      record.  When it has one, nothing is allocated and the source queues
      the destination's `derivers` pointer as it is, nil included. */
  lemma DerivesAsWritten(g: Graph, rel: Rel)
    requires rel.kind == Derives && rel.src != rel.dst
    requires rel.src in g.xrefs && rel.dst in g.xrefs
    ensures var g' := RelStep(g, rel);
            var s, d := g.xrefs[rel.src], g.xrefs[rel.dst];
            var s', d' := g'.xrefs[rel.src], g'.xrefs[rel.dst];
            && (d.overriders == Nil ==>
                  d'.derivers == At(|g.cells|) && g'.cells == g.cells + [[]]
                  && s'.toUpdate == s.toUpdate + [At(|g.cells|)])
            && (d.overriders != Nil ==>
                  d' == d && g'.cells == g.cells && s'.toUpdate == s.toUpdate + [d.derivers])
  {
  }

  /** The relationships loop. */
  method RegisterRels(g0: Graph, rels: seq<Rel>) returns (g: Graph)
    ensures g == RelsFold(g0, rels)
  {
    g := g0;
    for i := 0 to |rels|
      invariant g == RelsFold(g0, rels[..i])
    {
      assert rels[..i + 1][..i] == rels[..i];
      g := RelStep(g, rels[i]);
    }
    assert rels[..|rels|] == rels;
  }

  // ---------------------------------------------------------------------
  // Completes and leftovers

  /** `compXreflist`: the combined record for one canonical location. */
  datatype CompList = CompList(qname: StrIndex, refs: seq<Loc>, defs: seq<Loc>,
                               derivers: seq<Ptr>, overrides: seq<Ptr>, overriders: seq<Ptr>,
                               nounref: bool)

  /** `compmap` and the order its keys were added in. */
  datatype Combined = Combined(recs: map<Loc, CompList>, keys: seq<Loc>)

  /** The state the completes and leftover passes work on. */
  datatype Stage = Stage(g: Graph, c: Combined)

  /** The record map holds exactly the keys of its order, each once. */
  ghost predicate Keyed(c: Combined) {
    Distinct(c.keys) && forall l :: l in c.recs <==> l in c.keys
  }

  /** `*l = append(*l, loc)` for each queued pointer in turn.  A nil pointer
      is Go's nil dereference, which ends the run: no result.  (A pointer to no
      cell cannot arise, see `RelsFoldShape`; it fails the same way.) */
  function Flush(cells: seq<seq<Loc>>, ptrs: seq<Ptr>, loc: Loc): (r: Option<seq<seq<Loc>>>)
    ensures r.Some? ==> |r.value| == |cells|
  {
    if ptrs == [] then Some(cells)
    else match Flush(cells, ptrs[..|ptrs| - 1], loc)
      case None => None
      case Some(cs) =>
        var p := ptrs[|ptrs| - 1];
        if p.Nil? || p.cell >= |cs| then None else Some(cs[p.cell := cs[p.cell] + [loc]])
  }

  /** A pointer that can be followed: not nil, and naming a cell. */
  predicate Live(p: Ptr, n: nat) {
    p.At? && p.cell < n
  }

  /** The flush fails exactly when some queued pointer is nil or dangles. */
  lemma {:induction false} FlushFails(cells: seq<seq<Loc>>, ptrs: seq<Ptr>, loc: Loc)
    ensures Flush(cells, ptrs, loc).None? <==> exists k :: 0 <= k < |ptrs| && !Live(ptrs[k], |cells|)
  {
    if ptrs != [] {
      var init := ptrs[..|ptrs| - 1];
      FlushFails(cells, init, loc);
      assert forall k :: 0 <= k < |init| ==> ptrs[k] == init[k];
      var p := ptrs[|ptrs| - 1];
      if Flush(cells, init, loc).Some? {
        if !Live(p, |cells|) {
          assert Flush(cells, ptrs, loc).None?;
        } else {
          assert Flush(cells, ptrs, loc).Some?;
          forall k | 0 <= k < |ptrs| ensures Live(ptrs[k], |cells|) {
            if k < |init| { assert ptrs[k] == init[k]; }
          }
        }
      } else {
        var k :| 0 <= k < |init| && !Live(init[k], |cells|);
        assert ptrs[k] == init[k];
      }
    }
  }

  /** Each cell gets `loc` once for every time it is queued, and is otherwise
      unchanged. */
  lemma {:induction false} FlushAppends(cells: seq<seq<Loc>>, ptrs: seq<Ptr>, loc: Loc, c: nat)
    requires Flush(cells, ptrs, loc).Some? && c < |cells|
    ensures Flush(cells, ptrs, loc).value[c] == cells[c] + seq(multiset(ptrs)[At(c)], _ => loc)
  {
    if ptrs != [] {
      var init, p := ptrs[..|ptrs| - 1], ptrs[|ptrs| - 1];
      assert init + [p] == ptrs;
      FlushAppends(cells, init, loc, c);
      var n := multiset(init)[At(c)];
      if p == At(c) {
        assert multiset(ptrs)[At(c)] == n + 1;
        assert seq(n, _ => loc) + [loc] == seq(n + 1, _ => loc);
      } else {
        assert multiset(ptrs)[At(c)] == n;
      }
    }
  }

  lemma {:induction false} FlushNoneSticks(cells: seq<seq<Loc>>, ptrs: seq<Ptr>, loc: Loc, i: nat)
    requires i <= |ptrs| && Flush(cells, ptrs[..i], loc).None?
    ensures Flush(cells, ptrs, loc).None?
  {
    if i < |ptrs| {
      assert ptrs[..|ptrs| - 1][..i] == ptrs[..i];
      FlushNoneSticks(cells, ptrs[..|ptrs| - 1], loc, i);
    } else {
      assert ptrs[..i] == ptrs;
    }
  }

  /** The flushing loop of `mergeComp`. */
  method FlushUpdates(cells0: seq<seq<Loc>>, ptrs: seq<Ptr>, loc: Loc) returns (ok: bool, cells: seq<seq<Loc>>)
    ensures ok <==> Flush(cells0, ptrs, loc).Some?
    ensures ok ==> cells == Flush(cells0, ptrs, loc).value
  {
    cells := cells0;
    for i := 0 to |ptrs|
      invariant Flush(cells0, ptrs[..i], loc) == Some(cells)
    {
      assert ptrs[..i + 1][..i] == ptrs[..i];
      var l := ptrs[i];
      if l.Nil? || l.cell >= |cells| {
        FlushNoneSticks(cells0, ptrs, loc, i + 1);
        return false, cells;
      }
      cells := cells[l.cell := cells[l.cell] + [loc]];
    }
    assert ptrs[..|ptrs|] == ptrs;
    ok := true;
  }

  function Opt(p: Ptr): seq<Ptr> {
    if p.Nil? then [] else [p]
  }

  /** `mergeComp`: fold `xr` into the record at `loc` (made and named `name`
      if new), then append `loc` to every cell `xr` queued. */
  function MergeComp(st: Stage, loc: Loc, name: StrIndex, xr: XrefList): Option<Stage> {
    var c := st.c;
    var cl := if loc in c.recs then c.recs[loc] else CompList(name, [], [], [], [], [], false);
    var keys := if loc in c.recs then c.keys else c.keys + [loc];
    var cl' := CompList(cl.qname, cl.refs + xr.refs, cl.defs + xr.defs,
                        cl.derivers + Opt(xr.derivers), cl.overrides + Opt(xr.overrides),
                        cl.overriders + Opt(xr.overriders), cl.nounref || xr.nounref);
    match Flush(st.g.cells, xr.toUpdate, loc)
    case None => None
    case Some(cells) => Some(Stage(st.g.(cells := cells), Combined(c.recs[loc := cl'], keys)))
  }

  /** One iteration of the completes loop: a node that still has an xreflist
      is folded into the record at the completes location and forgotten. */
  function CompStep(st: Stage, comp: LocNode): Option<Stage> {
    if comp.vn !in st.g.xrefs then Some(st)
    else match MergeComp(st, comp.l, comp.name, st.g.xrefs[comp.vn])
      case None => None
      case Some(st1) => Some(st1.(g := st1.g.(xrefs := st1.g.xrefs - {comp.vn})))
  }

  function CompsFold(st: Stage, comps: seq<LocNode>): Option<Stage> {
    if comps == [] then Some(st)
    else match CompsFold(st, comps[..|comps| - 1])
      case None => None
      case Some(st1) => CompStep(st1, comps[|comps| - 1])
  }

  /** One iteration of the leftover loop: a node that was not completed and
      has definitions is keyed by its first definition, which leaves its
      declaration list. */
  function LeftoverStep(st: Stage, vn: StrIndex): Option<Stage> {
    if vn !in st.g.xrefs || st.g.xrefs[vn].defs == [] then Some(st)
    else
      var xr := st.g.xrefs[vn];
      MergeComp(st, xr.defs[0], xr.qname, xr.(defs := xr.defs[1..]))
  }

  function LeftoverFold(st: Stage, order: seq<StrIndex>): Option<Stage> {
    if order == [] then Some(st)
    else match LeftoverFold(st, order[..|order| - 1])
      case None => None
      case Some(st1) => LeftoverStep(st1, order[|order| - 1])
  }

  /** A merge keeps the node map and the order, and the record map keyed. */
  lemma MergeCompShape(st: Stage, loc: Loc, name: StrIndex, xr: XrefList)
    requires MergeComp(st, loc, name, xr).Some?
    ensures var st' := MergeComp(st, loc, name, xr).value;
            && st'.g.xrefs == st.g.xrefs && st'.g.order == st.g.order
            && |st'.g.cells| == |st.g.cells|
            && loc in st'.c.recs
            && (Keyed(st.c) ==> Keyed(st'.c))
  {
  }

  lemma {:induction false} CompsNoneSticks(st: Stage, comps: seq<LocNode>, i: nat)
    requires i <= |comps| && CompsFold(st, comps[..i]).None?
    ensures CompsFold(st, comps).None?
  {
    if i < |comps| {
      assert comps[..|comps| - 1][..i] == comps[..i];
      CompsNoneSticks(st, comps[..|comps| - 1], i);
    } else {
      assert comps[..i] == comps;
    }
  }

  lemma {:induction false} LeftoverNoneSticks(st: Stage, order: seq<StrIndex>, i: nat)
    requires i <= |order| && LeftoverFold(st, order[..i]).None?
    ensures LeftoverFold(st, order).None?
  {
    if i < |order| {
      assert order[..|order| - 1][..i] == order[..i];
      LeftoverNoneSticks(st, order[..|order| - 1], i);
    } else {
      assert order[..i] == order;
    }
  }

  /** The nodes a list of completes entries stands for. */
  function VnSet(s: seq<LocNode>): set<StrIndex> {
    set i | 0 <= i < |s| :: s[i].vn
  }

  /** The completes loop forgets exactly the nodes it is given: each is removed
      by its first completes entry and every other node keeps its xreflist.
      It keeps the order, the arena's size and the record map keyed. */
  lemma {:induction false} CompsFoldConsumes(st: Stage, comps: seq<LocNode>)
    requires CompsFold(st, comps).Some?
    ensures var st' := CompsFold(st, comps).value;
            && st'.g.xrefs == st.g.xrefs - VnSet(comps)
            && st'.g.order == st.g.order && |st'.g.cells| == |st.g.cells|
            && (Keyed(st.c) ==> Keyed(st'.c))
  {
    if comps != [] {
      var init, c := comps[..|comps| - 1], comps[|comps| - 1];
      CompsFoldConsumes(st, init);
      var st1 := CompsFold(st, init).value;
      if c.vn in st1.g.xrefs {
        MergeCompShape(st1, c.l, c.name, st1.g.xrefs[c.vn]);
      }
      assert VnSet(comps) == VnSet(init) + {c.vn} by {
        forall v | v in VnSet(comps) ensures v in VnSet(init) + {c.vn} {
          var k :| 0 <= k < |comps| && comps[k].vn == v;
          if k < |init| { assert init[k] == comps[k]; }
        }
        forall v | v in VnSet(init) ensures v in VnSet(comps) {
          var k :| 0 <= k < |init| && init[k].vn == v;
          assert comps[k] == init[k];
        }
        assert comps[|init|] == c;
      }
    }
  }

  /** Folding over a concatenation folds over the first part, then the second. */
  lemma {:induction false} CompsFoldAppend(st: Stage, a: seq<LocNode>, b: seq<LocNode>)
    ensures CompsFold(st, a + b) ==
            match CompsFold(st, a) case None => None case Some(st1) => CompsFold(st1, b)
  {
    if b == [] {
      assert a + b == a;
    } else {
      var b0 := b[..|b| - 1];
      CompsFoldAppend(st, a, b0);
      assert (a + b)[..|a + b| - 1] == a + b0;
      assert (a + b)[|a + b| - 1] == b[|b| - 1];
      if CompsFold(st, a).Some? {
        var st1 := CompsFold(st, a).value;
        assert CompsFold(st1, b) ==
               match CompsFold(st1, b0) case None => None case Some(st2) => CompStep(st2, b[|b| - 1]);
      }
    }
  }

  /** A completes entry for a node an earlier entry already consumed has no
      effect: removing it changes nothing. */
  lemma LaterCompSkipped(st: Stage, comps: seq<LocNode>, i: nat, j: nat)
    requires i < j < |comps| && comps[i].vn == comps[j].vn
    ensures CompsFold(st, comps) == CompsFold(st, comps[..j] + comps[j + 1..])
  {
    var a, c, b := comps[..j], comps[j], comps[j + 1..];
    assert comps == a + [c] + b;
    CompsFoldAppend(st, a + [c], b);
    CompsFoldAppend(st, a, b);
    assert (a + [c])[..|a|] == a;
    if CompsFold(st, a).Some? {
      CompsFoldConsumes(st, a);
      assert a[i].vn == c.vn;
      assert c.vn in VnSet(a);
    }
  }

  /** The leftover loop never changes the node map or the order. */
  lemma {:induction false} LeftoverFoldShape(st: Stage, order: seq<StrIndex>)
    requires LeftoverFold(st, order).Some?
    ensures var st' := LeftoverFold(st, order).value;
            && st'.g.xrefs == st.g.xrefs && st'.g.order == st.g.order
            && |st'.g.cells| == |st.g.cells|
            && (Keyed(st.c) ==> Keyed(st'.c))
  {
    if order != [] {
      LeftoverFoldShape(st, order[..|order| - 1]);
      var st1 := LeftoverFold(st, order[..|order| - 1]).value;
      var vn := order[|order| - 1];
      if vn in st1.g.xrefs && st1.g.xrefs[vn].defs != [] {
        var xr := st1.g.xrefs[vn];
        MergeCompShape(st1, xr.defs[0], xr.qname, xr.(defs := xr.defs[1..]));
      }
    }
  }

  /** So a node the completes loop consumed is skipped by the leftover loop. */
  lemma ConsumedSkipped(st: Stage, comps: seq<LocNode>, st': Stage, vn: StrIndex)
    requires CompsFold(st, comps).Some? && vn in VnSet(comps)
    requires st'.g.xrefs == CompsFold(st, comps).value.g.xrefs
    ensures LeftoverStep(st', vn) == Some(st')
  {
    CompsFoldConsumes(st, comps);
  }

  /** `mergeComp` as a method around its flushing loop. */
  method MergeInto(st: Stage, loc: Loc, name: StrIndex, xr: XrefList) returns (ok: bool, st': Stage)
    ensures ok <==> MergeComp(st, loc, name, xr).Some?
    ensures ok ==> st' == MergeComp(st, loc, name, xr).value
  {
    var c := st.c;
    var cl, keys;
    if loc in c.recs {
      cl, keys := c.recs[loc], c.keys;
    } else {
      cl, keys := CompList(name, [], [], [], [], [], false), c.keys + [loc];
    }
    var cl' := CompList(cl.qname, cl.refs + xr.refs, cl.defs + xr.defs,
                        cl.derivers + Opt(xr.derivers), cl.overrides + Opt(xr.overrides),
                        cl.overriders + Opt(xr.overriders), cl.nounref || xr.nounref);
    var cells;
    ok, cells := FlushUpdates(st.g.cells, xr.toUpdate, loc);
    st' := Stage(st.g.(cells := cells), Combined(c.recs[loc := cl'], keys));
  }

  /** The completes loop; `ok` is false where the source would panic. */
  method FoldComps(st0: Stage, comps: seq<LocNode>) returns (ok: bool, st: Stage)
    ensures ok <==> CompsFold(st0, comps).Some?
    ensures ok ==> st == CompsFold(st0, comps).value
  {
    st := st0;
    for i := 0 to |comps|
      invariant CompsFold(st0, comps[..i]) == Some(st)
    {
      assert comps[..i + 1][..i] == comps[..i];
      var comp := comps[i];
      if comp.vn in st.g.xrefs {
        var merged, st1 := MergeInto(st, comp.l, comp.name, st.g.xrefs[comp.vn]);
        if !merged {
          CompsNoneSticks(st0, comps, i + 1);
          return false, st;
        }
        st := st1.(g := st1.g.(xrefs := st1.g.xrefs - {comp.vn}));
      }
    }
    assert comps[..|comps|] == comps;
    ok := true;
  }

  /** The leftover loop over the nodes in their order. */
  method FoldLeftovers(st0: Stage) returns (ok: bool, st: Stage)
    ensures ok <==> LeftoverFold(st0, st0.g.order).Some?
    ensures ok ==> st == LeftoverFold(st0, st0.g.order).value
  {
    var order := st0.g.order;
    st := st0;
    for i := 0 to |order|
      invariant LeftoverFold(st0, order[..i]) == Some(st)
    {
      assert order[..i + 1][..i] == order[..i];
      var vn := order[i];
      if vn in st.g.xrefs && st.g.xrefs[vn].defs != [] {
        var xr := st.g.xrefs[vn];
        var merged, st1 := MergeInto(st, xr.defs[0], xr.qname, xr.(defs := xr.defs[1..]));
        if !merged {
          LeftoverNoneSticks(st0, order, i + 1);
          return false, st;
        }
        st := st1;
      }
    }
    assert order[..|order|] == order;
    ok := true;
  }

  // ---------------------------------------------------------------------
  // Emission

  /** `xrefinfo`: what the pages show for one entity. */
  datatype XrefInfo = XrefInfo(def: Loc, qname: string, decls: seq<Loc>, refs: seq<Loc>,
                               derivers: seq<Loc>, overrides: seq<Loc>, overriders: seq<Loc>,
                               nounref: bool)

  /** `xref`: a span of a file and the entity shown there.  The Go pointer to
      the `xrefinfo` is an index into `CorpusIndex.infos`; every span of one
      entity holds the same index. */
  datatype Xref = Xref(startByte: int, endByte: int, info: nat)

  /** `srcinfos` and `srcpaths`: the spans of each file, and the files in the
      order they were first seen. */
  datatype Sources = Sources(xrefs: map<StrIndex, seq<Xref>>, paths: seq<StrIndex>)

  /** The whole output of the resolver: the spans and the table of entities. */
  datatype Output = Output(src: Sources, infos: seq<XrefInfo>)

  const EmptyOutput: Output := Output(Sources(map[], []), [])

  /** Each file is listed once, exactly the files with spans are listed, and
      every span names an entity of the table. */
  ghost predicate SourcesValid(s: Sources, n: nat) {
    && Distinct(s.paths) && (forall p :: p in s.xrefs <==> p in s.paths)
    && forall p :: p in s.xrefs ==> forall k :: 0 <= k < |s.xrefs[p]| ==> s.xrefs[p][k].info < n
  }

  /** `srcinfoFor(path)`, then an append to that file's spans. */
  function Place(s: Sources, path: StrIndex, x: Xref): Sources {
    if path in s.xrefs then Sources(s.xrefs[path := s.xrefs[path] + [x]], s.paths)
    else Sources(s.xrefs[path := [x]], s.paths + [path])
  }

  datatype Placement = Placement(path: StrIndex, x: Xref)

  function PlaceAll(s: Sources, items: seq<Placement>): Sources {
    if items == [] then s
    else
      var last := items[|items| - 1];
      Place(PlaceAll(s, items[..|items| - 1]), last.path, last.x)
  }

  /** The placements of `items` that go to `path`, in order. */
  function SpansAt(items: seq<Placement>, path: StrIndex): seq<Xref> {
    if items == [] then []
    else
      var last := items[|items| - 1];
      SpansAt(items[..|items| - 1], path) + (if last.path == path then [last.x] else [])
  }

  /** Placing spans appends to each file exactly the spans meant for it, in
      order, lists a file the first time it gets one, and keeps the sources
      valid when every span names an entity of the table. */
  lemma {:induction false} PlaceAllRoutes(s: Sources, items: seq<Placement>, n: nat)
    ensures var s' := PlaceAll(s, items);
            && (forall p :: p in s'.xrefs <==> p in s.xrefs || SpansAt(items, p) != [])
            && (forall p :: p in s'.xrefs ==>
                  s'.xrefs[p] == (if p in s.xrefs then s.xrefs[p] else []) + SpansAt(items, p))
            && s.paths <= s'.paths
            && (SourcesValid(s, n) && (forall k :: 0 <= k < |items| ==> items[k].x.info < n) ==>
                  SourcesValid(s', n))
  {
    PlaceAllSpans(s, items);
    if SourcesValid(s, n) && (forall k :: 0 <= k < |items| ==> items[k].x.info < n) {
      PlaceAllValid(s, items, n);
    }
  }

  lemma PlaceAllSpans(s: Sources, items: seq<Placement>)
    ensures var s' := PlaceAll(s, items);
            && (forall p :: p in s'.xrefs <==> p in s.xrefs || SpansAt(items, p) != [])
            && (forall p :: p in s'.xrefs ==>
                  s'.xrefs[p] == (if p in s.xrefs then s.xrefs[p] else []) + SpansAt(items, p))
            && s.paths <= s'.paths
  {
    forall p
      ensures var s' := PlaceAll(s, items);
              && (p in s'.xrefs <==> p in s.xrefs || SpansAt(items, p) != [])
              && (p in s'.xrefs ==> s'.xrefs[p] == (if p in s.xrefs then s.xrefs[p] else []) + SpansAt(items, p))
    {
      PlaceAllAt(s, items, p);
    }
    PlaceAllPaths(s, items);
  }

  /** What placing spans does to one file. */
  lemma {:induction false} PlaceAllAt(s: Sources, items: seq<Placement>, p: StrIndex)
    ensures var s' := PlaceAll(s, items);
            && (p in s'.xrefs <==> p in s.xrefs || SpansAt(items, p) != [])
            && (p in s'.xrefs ==> s'.xrefs[p] == (if p in s.xrefs then s.xrefs[p] else []) + SpansAt(items, p))
  {
    if items != [] {
      var init, last := items[..|items| - 1], items[|items| - 1];
      PlaceAllAt(s, init, p);
      var s1 := PlaceAll(s, init);
      var before := if p in s.xrefs then s.xrefs[p] else [];
      if p == last.path {
        if p in s1.xrefs {
          assert PlaceAll(s, items).xrefs[p] == (before + SpansAt(init, p)) + [last.x];
        }
      }
    }
  }

  lemma {:induction false} PlaceAllPaths(s: Sources, items: seq<Placement>)
    ensures s.paths <= PlaceAll(s, items).paths
  {
    if items != [] {
      PlaceAllPaths(s, items[..|items| - 1]);
    }
  }

  lemma {:induction false} PlaceAllValid(s: Sources, items: seq<Placement>, n: nat)
    requires SourcesValid(s, n) && forall k :: 0 <= k < |items| ==> items[k].x.info < n
    ensures SourcesValid(PlaceAll(s, items), n)
  {
    if items != [] {
      var init, last := items[..|items| - 1], items[|items| - 1];
      assert forall k :: 0 <= k < |init| ==> init[k] == items[k];
      PlaceAllValid(s, init, n);
      PlaceStep(PlaceAll(s, init), last.path, last.x, n);
    }
  }

  lemma PlaceStep(s: Sources, path: StrIndex, x: Xref, n: nat)
    ensures var s' := Place(s, path, x);
            && s'.xrefs.Keys == s.xrefs.Keys + {path}
            && (forall p :: p in s.xrefs && p != path ==> s'.xrefs[p] == s.xrefs[p])
            && s'.xrefs[path] == (if path in s.xrefs then s.xrefs[path] else []) + [x]
            && s.paths <= s'.paths
            && (SourcesValid(s, n) && x.info < n ==> SourcesValid(s', n))
  {
    var s' := Place(s, path, x);
    if SourcesValid(s, n) && x.info < n && path !in s.xrefs {
      assert path !in s.paths;
      forall i, j | 0 <= i < j < |s'.paths| ensures s'.paths[i] != s'.paths[j] {
        if j == |s.paths| {
          assert s.paths[i] in s.xrefs;
        }
      }
    }
  }

  /** The derefs of `*rel.target = append(*rel.target, *s...)`: the cells of
      `ptrs` concatenated; a nil or dangling pointer is a nil dereference. */
  function Gather(cells: seq<seq<Loc>>, ptrs: seq<Ptr>): Option<seq<Loc>> {
    if ptrs == [] then Some([])
    else match Gather(cells, ptrs[..|ptrs| - 1])
      case None => None
      case Some(locs) =>
        var p := ptrs[|ptrs| - 1];
        if Live(p, |cells|) then Some(locs + cells[p.cell]) else None
  }

  /** The entity of the combined record at `loc`; the name handle is read from
      the table (an index out of range is a Go panic). */
  function InfoOf(cells: seq<seq<Loc>>, loc: Loc, cl: CompList, tab: seq<string>): Option<XrefInfo> {
    if cl.qname >= |tab| then None
    else match (Gather(cells, cl.derivers), Gather(cells, cl.overrides), Gather(cells, cl.overriders))
      case (Some(ds), Some(os), Some(ors)) =>
        Some(XrefInfo(loc, tab[cl.qname], cl.defs, cl.refs, ds, os, ors, cl.nounref))
      case _ => None
  }

  /** A span at each of `locs`, all for entity `id`. */
  function SpansFor(locs: seq<Loc>, id: nat): (r: seq<Placement>)
    ensures |r| == |locs|
  {
    seq(|locs|, k requires 0 <= k < |locs| =>
      Placement(locs[k].path, Xref(locs[k].startByte, locs[k].endByte, id)))
  }

  /** Where a combined record is shown: at its key location, then at every
      declaration, then at every reference. */
  function RecordPlacements(loc: Loc, cl: CompList, id: nat): seq<Placement> {
    SpansFor([loc] + cl.defs + cl.refs, id)
  }

  /** One iteration of the emission loop. */
  function EmitStep(o: Output, cells: seq<seq<Loc>>, loc: Loc, cl: CompList, tab: seq<string>): Option<Output> {
    match InfoOf(cells, loc, cl, tab)
    case None => None
    case Some(xri) => Some(Output(PlaceAll(o.src, RecordPlacements(loc, cl, |o.infos|)), o.infos + [xri]))
  }

  function EmitFold(o: Output, cells: seq<seq<Loc>>, c: Combined, keys: seq<Loc>, tab: seq<string>): Option<Output>
    requires forall k :: 0 <= k < |keys| ==> keys[k] in c.recs
  {
    if keys == [] then Some(o)
    else match EmitFold(o, cells, c, keys[..|keys| - 1], tab)
      case None => None
      case Some(o1) => EmitStep(o1, cells, keys[|keys| - 1], c.recs[keys[|keys| - 1]], tab)
  }

  /** One iteration of the includes loop: a span at the include, for a fresh
      entity defined at the start of the included file's node and exempt from
      the unreferenced marker. */
  function IncStep(o: Output, inc: LocNode): Output {
    Output(Place(o.src, inc.l.path, Xref(inc.l.startByte, inc.l.endByte, |o.infos|)),
           o.infos + [XrefInfo(Loc(inc.vn, 0, 0), "", [], [], [], [], [], true)])
  }

  function IncsFold(o: Output, incs: seq<LocNode>): Output {
    if incs == [] then o else IncStep(IncsFold(o, incs[..|incs| - 1]), incs[|incs| - 1])
  }

  /** The graph after the definitions, references and relationships loops. */
  function Linked(defs: seq<LocNode>, refs: seq<LocNode>, comps: seq<LocNode>, rels: seq<Rel>): Graph {
    RelsFold(RefsFold(DefsFold(EmptyGraph, defs), refs, LocSet(comps) + LocSet(defs)), rels)
  }

  /** `corpusindex.finish` from `o` and the lists of the merged record: the
      includes, then the definitions, references and relationships loops, the
      completes and leftover loops, and the emission loop; no result where
      the source would panic. */
  ghost function Resolve(o: Output, incs: seq<LocNode>, defs: seq<LocNode>, refs: seq<LocNode>,
                         comps: seq<LocNode>, rels: seq<Rel>, tab: seq<string>): Option<Output>
  {
    var o1 := IncsFold(o, incs);
    var st0 := Stage(Linked(defs, refs, comps, rels), Combined(map[], []));
    match CompsFold(st0, comps)
    case None => None
    case Some(st1) =>
      match LeftoverFold(st1, st1.g.order)
      case None => None
      case Some(st2) =>
        CompsFoldConsumes(st0, comps);
        LeftoverFoldShape(st1, st1.g.order);
        EmitFold(o1, st2.g.cells, st2.c, st2.c.keys, tab)
  }

  /** The emitted spans of one record: one at its key location and one at
      every declaration and reference, all for the same entity. */
  lemma RecordPlacementsShare(loc: Loc, cl: CompList, id: nat)
    ensures var items := RecordPlacements(loc, cl, id);
            && |items| == 1 + |cl.defs| + |cl.refs|
            && items[0] == Placement(loc.path, Xref(loc.startByte, loc.endByte, id))
            && (forall k :: 0 <= k < |cl.defs| ==>
                  items[1 + k] == Placement(cl.defs[k].path, Xref(cl.defs[k].startByte, cl.defs[k].endByte, id)))
            && (forall k :: 0 <= k < |cl.refs| ==>
                  items[1 + |cl.defs| + k] == Placement(cl.refs[k].path, Xref(cl.refs[k].startByte, cl.refs[k].endByte, id)))
            && forall k :: 0 <= k < |items| ==> items[k].x.info == id
  {
    var all := [loc] + cl.defs + cl.refs;
    assert forall k :: 0 <= k < |cl.defs| ==> all[1 + k] == cl.defs[k];
    assert forall k :: 0 <= k < |cl.refs| ==> all[1 + |cl.defs| + k] == cl.refs[k];
  }

  /** The entity of a record is built exactly when its name handle is in the
      table and none of its relation pointers is nil or dangling. */
  lemma {:induction false} GatherFails(cells: seq<seq<Loc>>, ptrs: seq<Ptr>)
    ensures Gather(cells, ptrs).None? <==> exists k :: 0 <= k < |ptrs| && !Live(ptrs[k], |cells|)
  {
    if ptrs != [] {
      var init := ptrs[..|ptrs| - 1];
      GatherFails(cells, init);
      var p := ptrs[|ptrs| - 1];
      if Gather(cells, init).Some? {
        if Live(p, |cells|) {
          forall k | 0 <= k < |ptrs| ensures Live(ptrs[k], |cells|) {
            if k < |init| { assert ptrs[k] == init[k]; }
          }
        }
      } else {
        var k :| 0 <= k < |init| && !Live(init[k], |cells|);
        assert ptrs[k] == init[k];
      }
    }
  }

  /** The derefs and the name lookup of one emission step. */
  method EntityOf(cells: seq<seq<Loc>>, def: Loc, refs: CompList, tab: seq<string>) returns (ok: bool, xri: XrefInfo)
    ensures ok <==> InfoOf(cells, def, refs, tab).Some?
    ensures ok ==> xri == InfoOf(cells, def, refs, tab).value
  {
    var okd, ds := GatherCells(cells, refs.derivers);
    var oko, os := GatherCells(cells, refs.overrides);
    var okr, ors := GatherCells(cells, refs.overriders);
    xri := XrefInfo(def, "", refs.defs, refs.refs, ds, os, ors, refs.nounref);
    if refs.qname >= |tab| || !okd || !oko || !okr {
      return false, xri;
    }
    xri := xri.(qname := tab[refs.qname]);
    ok := true;
  }

  /** The concatenating loop of the emission. */
  method GatherCells(cells: seq<seq<Loc>>, ptrs: seq<Ptr>) returns (ok: bool, locs: seq<Loc>)
    ensures ok <==> Gather(cells, ptrs).Some?
    ensures ok ==> locs == Gather(cells, ptrs).value
  {
    locs := [];
    for i := 0 to |ptrs|
      invariant Gather(cells, ptrs[..i]) == Some(locs)
    {
      assert ptrs[..i + 1][..i] == ptrs[..i];
      var s := ptrs[i];
      if !(s.At? && s.cell < |cells|) {
        GatherNoneSticks(cells, ptrs, i + 1);
        return false, locs;
      }
      locs := locs + cells[s.cell];
    }
    assert ptrs[..|ptrs|] == ptrs;
    ok := true;
  }

  lemma {:induction false} GatherNoneSticks(cells: seq<seq<Loc>>, ptrs: seq<Ptr>, i: nat)
    requires i <= |ptrs| && Gather(cells, ptrs[..i]).None?
    ensures Gather(cells, ptrs).None?
  {
    if i < |ptrs| {
      assert ptrs[..|ptrs| - 1][..i] == ptrs[..i];
      GatherNoneSticks(cells, ptrs[..|ptrs| - 1], i);
    } else {
      assert ptrs[..i] == ptrs;
    }
  }

  lemma {:induction false} EmitNoneSticks(o: Output, cells: seq<seq<Loc>>, c: Combined, keys: seq<Loc>,
                                          tab: seq<string>, i: nat)
    requires forall k :: 0 <= k < |keys| ==> keys[k] in c.recs
    requires i <= |keys| && EmitFold(o, cells, c, keys[..i], tab).None?
    ensures EmitFold(o, cells, c, keys, tab).None?
  {
    if i < |keys| {
      assert keys[..|keys| - 1][..i] == keys[..i];
      EmitNoneSticks(o, cells, c, keys[..|keys| - 1], tab, i);
    } else {
      assert keys[..i] == keys;
    }
  }

  // ---------------------------------------------------------------------
  // The corpus index

  /** `corpusindex`: the merged record and what `finish` builds from it. */
  class CorpusIndex {
    const info: TUInfo
    var srcinfos: map<StrIndex, seq<Xref>>
    var srcpaths: seq<StrIndex>
    /** The `xrefinfo`s the spans point to. */
    var infos: seq<XrefInfo>

    ghost predicate Valid()
      reads this, info, info.strs
    {
      info.Valid() && SourcesValid(Sources(srcinfos, srcpaths), |infos|)
    }

    ghost function Current(): Output
      reads this
    {
      Output(Sources(srcinfos, srcpaths), infos)
    }

    /** `corpusindex.init` over a merged record. */
    constructor (info: TUInfo)
      requires info.Valid()
      ensures Valid() && this.info == info
      ensures srcinfos == map[] && srcpaths == [] && infos == []
    {
      this.info := info;
      srcinfos, srcpaths, infos := map[], [], [];
    }

    /** `srcinfoFor`: the span list of a file, made and listed if new. */
    method SrcinfoFor(name: StrIndex)
      modifies this
      ensures name in srcinfos && infos == old(infos)
      ensures old(name in srcinfos) ==> srcinfos == old(srcinfos) && srcpaths == old(srcpaths)
      ensures old(name !in srcinfos) ==> srcinfos == old(srcinfos)[name := []] && srcpaths == old(srcpaths) + [name]
    {
      if name !in srcinfos {
        srcpaths := srcpaths + [name];
        srcinfos := srcinfos[name := []];
      }
    }

    /** `s := ix.srcinfoFor(path); s.xrefs = append(s.xrefs, x)`. */
    method AddXref(path: StrIndex, x: Xref)
      modifies this
      ensures Sources(srcinfos, srcpaths) == Place(old(Sources(srcinfos, srcpaths)), path, x)
      ensures infos == old(infos)
    {
      ghost var s0 := Sources(srcinfos, srcpaths);
      SrcinfoFor(path);
      ghost var s1 := srcinfos;
      assert path !in s0.xrefs ==> s1 == s0.xrefs[path := []] && s1[path] + [x] == [x];
      srcinfos := srcinfos[path := srcinfos[path] + [x]];
    }

    /** One iteration of the includes loop. */
    method AddInclude(inc: LocNode)
      requires Valid()
      modifies this
      ensures Valid() && Current() == IncStep(old(Current()), inc)
    {
      ghost var s0 := Sources(srcinfos, srcpaths);
      var id := |infos|;
      infos := infos + [XrefInfo(Loc(inc.vn, 0, 0), "", [], [], [], [], [], true)];
      SourcesValidGrow(s0, id, |infos|);
      AddXref(inc.l.path, Xref(inc.l.startByte, inc.l.endByte, id));
      PlaceStep(s0, inc.l.path, Xref(inc.l.startByte, inc.l.endByte, id), |infos|);
    }

    /** The includes loop. */
    method AddIncludes()
      requires Valid()
      modifies this
      ensures Valid()
      ensures Current() == IncsFold(old(Current()), info.incs)
    {
      ghost var o0 := Current();
      var incs := info.incs;
      for i := 0 to |incs|
        invariant Valid() && Current() == IncsFold(o0, incs[..i])
      {
        assert incs[..i + 1][..i] == incs[..i];
        AddInclude(incs[i]);
      }
      assert incs[..|incs|] == incs;
    }

    /** The spans of one combined record: at the key, then at every
        declaration and reference. */
    method PlaceRecord(loc: Loc, cl: CompList, id: nat)
      modifies this
      ensures Sources(srcinfos, srcpaths) == PlaceAll(old(Sources(srcinfos, srcpaths)), RecordPlacements(loc, cl, id))
      ensures infos == old(infos)
    {
      ghost var s0 := Sources(srcinfos, srcpaths);
      var all := [loc] + cl.defs + cl.refs;
      ghost var items := RecordPlacements(loc, cl, id);
      for i := 0 to |all|
        invariant Sources(srcinfos, srcpaths) == PlaceAll(s0, items[..i]) && infos == old(infos)
      {
        assert items[..i + 1][..i] == items[..i];
        var r := all[i];
        AddXref(r.path, Xref(r.startByte, r.endByte, id));
      }
      assert items[..|all|] == items;
    }

    /** A new entity `xri` and its spans at the record's locations. */
    method AddEntity(xri: XrefInfo, def: Loc, refs: CompList)
      requires Valid()
      modifies this
      ensures Valid()
      ensures Current() == Output(PlaceAll(old(Current()).src, RecordPlacements(def, refs, |old(infos)|)),
                                  old(infos) + [xri])
    {
      ghost var s0 := Sources(srcinfos, srcpaths);
      var id := |infos|;
      infos := infos + [xri];
      SourcesValidGrow(s0, id, |infos|);
      PlaceRecord(def, refs, id);
      RecordPlacementsShare(def, refs, id);
      PlaceAllRoutes(s0, RecordPlacements(def, refs, id), |infos|);
    }

    /** One iteration of the emission loop: the entity of the record at
        `def`, then its spans. */
    method EmitRecord(cells: seq<seq<Loc>>, def: Loc, refs: CompList, tab: seq<string>) returns (ok: bool)
      requires Valid()
      modifies this
      ensures ok <==> EmitStep(old(Current()), cells, def, refs, tab).Some?
      ensures ok ==> Valid() && Current() == EmitStep(old(Current()), cells, def, refs, tab).value
    {
      var xri;
      ok, xri := EntityOf(cells, def, refs, tab);
      if ok {
        AddEntity(xri, def, refs);
      }
    }

    /** The emission loop over the combined records in their order. */
    method EmitRecords(cells: seq<seq<Loc>>, c: Combined) returns (ok: bool)
      requires Valid() && Keyed(c)
      modifies this
      ensures ok <==> EmitFold(old(Current()), cells, c, c.keys, info.strs.strs).Some?
      ensures ok ==> Valid() && Current() == EmitFold(old(Current()), cells, c, c.keys, info.strs.strs).value
    {
      ghost var o0 := Current();
      var tab := info.strs.strs;
      var keys := c.keys;
      for i := 0 to |keys|
        invariant Valid()
        invariant EmitFold(o0, cells, c, keys[..i], tab) == Some(Current())
      {
        assert keys[..i + 1][..i] == keys[..i];
        var def := keys[i];
        var okr := EmitRecord(cells, def, c.recs[def], tab);
        if !okr {
          EmitNoneSticks(o0, cells, c, keys, tab, i + 1);
          return false;
        }
      }
      assert keys[..|keys|] == keys;
      ok := true;
    }

    /** `corpusindex.finish`: turn the merged record into spans and entities.
        The includes, definitions and references lists are emptied as the
        source does; `ok` is false where the source would panic. */
    method Finish() returns (ok: bool)
      requires Valid()
      modifies this, info
      ensures info.incs == [] && info.defs == [] && info.refs == [] && info.rels == old(info.rels)
      ensures ok <==> Resolve(old(Current()), old(info.incs), old(info.defs), old(info.refs),
                              old(info.comps), old(info.rels), info.strs.strs).Some?
      ensures ok ==> Valid() && info.comps == []
      ensures ok ==> Current() == Resolve(old(Current()), old(info.incs), old(info.defs), old(info.refs),
                                          old(info.comps), old(info.rels), info.strs.strs).value
    {
      ghost var o0 := Current();
      ghost var incs, defs, refs, comps := info.incs, info.defs, info.refs, info.comps;
      AddIncludes();
      info.incs := [];
      var g, deflocs := GroupDefs(info.comps, info.defs);
      info.defs := [];
      g := FilterRefs(g, info.refs, deflocs);
      info.refs := [];
      g := RegisterRels(g, info.rels);
      assert g == Linked(defs, refs, comps, info.rels);
      ghost var st0 := Stage(g, Combined(map[], []));
      var okc, st := FoldComps(Stage(g, Combined(map[], [])), info.comps);
      if !okc {
        return false;
      }
      info.comps := [];
      CompsFoldConsumes(st0, comps);
      var okl, st' := FoldLeftovers(st);
      if !okl {
        return false;
      }
      LeftoverFoldShape(st, st.g.order);
      ok := EmitRecords(st'.g.cells, st'.c);
    }

    /** `makeDefIndex`: for every file in order, the spans that sit at their
        own entity's definition and have a name. */
    method MakeDefIndex() returns (didx: seq<File>)
      requires Valid()
      requires forall k :: 0 <= k < |srcpaths| ==> srcpaths[k] < |info.strs.strs|
      ensures didx == DefIndexOf(srcinfos, srcpaths, infos, info.strs.strs)
    {
      var tab := info.strs.strs;
      didx := [];
      for i := 0 to |srcpaths|
        invariant didx == DefIndexOf(srcinfos, srcpaths[..i], infos, tab)
      {
        assert srcpaths[..i + 1][..i] == srcpaths[..i];
        var path := srcpaths[i];
        var xrefs := srcinfos[path];
        var defs := DefsOfFile(path, xrefs, infos);
        var pathstr := tab[path];
        didx := didx + [File(pathstr, ToLower(pathstr), defs)];
      }
      assert srcpaths[..|srcpaths|] == srcpaths;
    }
  }

  /** Growing the entity table keeps the sources valid. */
  lemma SourcesValidGrow(s: Sources, n: nat, n': nat)
    requires SourcesValid(s, n) && n <= n'
    ensures SourcesValid(s, n')
  {
  }

  /** Whether span `x` of file `path` sits at its own entity's definition,
      and the entity has a name. */
  predicate AtOwnDef(path: StrIndex, x: Xref, infos: seq<XrefInfo>)
    requires x.info < |infos|
  {
    infos[x.info].qname != "" && infos[x.info].def == Loc(path, x.startByte, x.endByte)
  }

  /** The definition entry of such a span; Go converts the count and the
      offsets to uint32. */
  function DefEntry(x: Xref, infos: seq<XrefInfo>): Definition
    requires x.info < |infos|
  {
    Definition(infos[x.info].qname, Uint32(|infos[x.info].refs|), Uint32(x.startByte), Uint32(x.endByte))
  }

  /** The definitions of one file: its spans at their own definitions, in order. */
  function FileDefs(path: StrIndex, xrefs: seq<Xref>, infos: seq<XrefInfo>): seq<Definition>
    requires forall k :: 0 <= k < |xrefs| ==> xrefs[k].info < |infos|
  {
    if xrefs == [] then []
    else
      var x := xrefs[|xrefs| - 1];
      FileDefs(path, xrefs[..|xrefs| - 1], infos) + (if AtOwnDef(path, x, infos) then [DefEntry(x, infos)] else [])
  }

  /** A file's entry of the definition index. */
  function FileEntry(path: StrIndex, xrefs: seq<Xref>, infos: seq<XrefInfo>, tab: seq<string>): File
    requires path < |tab| && SpansIn(xrefs, |infos|)
  {
    File(tab[path], ToLower(tab[path]), FileDefs(path, xrefs, infos))
  }

  predicate SpansIn(xrefs: seq<Xref>, n: nat) {
    forall k :: 0 <= k < |xrefs| ==> xrefs[k].info < n
  }

  /** The definition index: one entry per file of `paths`, in order. */
  function DefIndexOf(xrefs: map<StrIndex, seq<Xref>>, paths: seq<StrIndex>, infos: seq<XrefInfo>,
                      tab: seq<string>): (r: seq<File>)
    requires forall k :: 0 <= k < |paths| ==> paths[k] in xrefs && paths[k] < |tab| && SpansIn(xrefs[paths[k]], |infos|)
    ensures |r| == |paths|
  {
    if paths == [] then []
    else
      var p := paths[|paths| - 1];
      DefIndexOf(xrefs, paths[..|paths| - 1], infos, tab) + [FileEntry(p, xrefs[p], infos, tab)]
  }

  /** A file lists a definition exactly when one of its spans sits at its own
      entity's definition and the entity has a name. */
  lemma {:induction false} FileDefsMembers(path: StrIndex, xrefs: seq<Xref>, infos: seq<XrefInfo>, d: Definition)
    requires SpansIn(xrefs, |infos|)
    ensures d in FileDefs(path, xrefs, infos) <==>
            exists k :: 0 <= k < |xrefs| && AtOwnDef(path, xrefs[k], infos) && d == DefEntry(xrefs[k], infos)
  {
    if xrefs != [] {
      var init := xrefs[..|xrefs| - 1];
      assert forall k :: 0 <= k < |init| ==> init[k] == xrefs[k];
      FileDefsMembers(path, init, infos, d);
    }
  }

  /** The inner loop of `makeDefIndex`. */
  method DefsOfFile(path: StrIndex, xrefs: seq<Xref>, infos: seq<XrefInfo>) returns (defs: seq<Definition>)
    requires SpansIn(xrefs, |infos|)
    ensures defs == FileDefs(path, xrefs, infos)
  {
    defs := [];
    for i := 0 to |xrefs|
      invariant defs == FileDefs(path, xrefs[..i], infos)
    {
      assert xrefs[..i + 1][..i] == xrefs[..i];
      var xr := xrefs[i];
      var xi := infos[xr.info];
      if xi.qname != "" && xi.def == Loc(path, xr.startByte, xr.endByte) {
        defs := defs + [Definition(xi.qname, Uint32(|xi.refs|), Uint32(xr.startByte), Uint32(xr.endByte))];
      }
    }
    assert xrefs[..|xrefs|] == xrefs;
  }

  // ---------------------------------------------------------------------
  // The derives quirk, end to end

  /** Three nodes with one definition each in file 3; the first overrides
      the second, and the third derives from the second. */
  const QuirkDefs: seq<LocNode> := [LocNode(Loc(3, 0, 1), 0, 0, false), LocNode(Loc(3, 2, 3), 1, 1, false),
                                    LocNode(Loc(3, 4, 5), 2, 2, false)]
  const QuirkRels: seq<Rel> := [Rel(Overrides, 0, 1), Rel(Derives, 2, 1)]

  /** The three xreflists after the definitions loop. */
  const QuirkAfterDefs: Graph :=
    Graph(map[0 := XrefList(0, [], [Loc(3, 0, 1)], Nil, Nil, Nil, [], false),
              1 := XrefList(1, [], [Loc(3, 2, 3)], Nil, Nil, Nil, [], false),
              2 := XrefList(2, [], [Loc(3, 4, 5)], Nil, Nil, Nil, [], false)],
          [0, 1, 2], [])

  /** After the overrides relationship: two cells, queued both ways. */
  const QuirkAfterOverrides: Graph :=
    Graph(map[0 := XrefList(0, [], [Loc(3, 0, 1)], Nil, At(0), Nil, [At(1)], false),
              1 := XrefList(1, [], [Loc(3, 2, 3)], Nil, Nil, At(1), [At(0)], false),
              2 := XrefList(2, [], [Loc(3, 4, 5)], Nil, Nil, Nil, [], false)],
          [0, 1, 2], [[], []])

  lemma QuirkDefsFold()
    ensures DefsFold(EmptyGraph, QuirkDefs) == QuirkAfterDefs
  {
    var defs := QuirkDefs;
    var e0 := DefStep(EmptyGraph, defs[0]);
    var e1 := DefStep(e0, defs[1]);
    assert DefsFold(EmptyGraph, defs[..1]) == e0 by {
      assert defs[..1][..0] == [];
    }
    assert DefsFold(EmptyGraph, defs[..2]) == e1 by {
      assert defs[..2][..1] == defs[..1];
    }
    assert DefsFold(EmptyGraph, defs) == DefStep(e1, defs[2]) by {
      assert defs[..|defs| - 1] == defs[..2];
    }
    var x := QuirkAfterDefs.xrefs;
    assert e0.xrefs.Keys == {0} && e0.xrefs[0] == x[0] && e0.order == [0] && e0.cells == [];
    assert e1.xrefs.Keys == {0, 1} && e1.xrefs[0] == x[0] && e1.xrefs[1] == x[1] && e1.order == [0, 1];
    var e2 := DefStep(e1, defs[2]);
    assert e2.xrefs.Keys == x.Keys && e2.xrefs[0] == x[0] && e2.xrefs[1] == x[1] && e2.xrefs[2] == x[2];
    assert e2.xrefs == x;
  }

  lemma QuirkOverridesStep()
    ensures RelStep(QuirkAfterDefs, QuirkRels[0]) == QuirkAfterOverrides
  {
    var g, x := QuirkAfterDefs, QuirkAfterOverrides.xrefs;
    var g1 := WithOverrides(g, 0);
    assert g1.xrefs == g.xrefs[0 := g.xrefs[0].(overrides := At(0))] && g1.cells == [[]];
    var g2 := Queue(g1, 1, At(0));
    var g3 := WithOverriders(g2, 1);
    assert g3.xrefs == g2.xrefs[1 := g2.xrefs[1].(overriders := At(1))] && g3.cells == [[], []];
    var g4 := Queue(g3, 0, At(1));
    assert g4.xrefs.Keys == x.Keys;
    assert g4.xrefs[0] == x[0] && g4.xrefs[1] == x[1] && g4.xrefs[2] == x[2];
    assert g4.xrefs == x;
  }

  lemma QuirkRelsFold()
    ensures RelsFold(QuirkAfterDefs, QuirkRels) == QuirkAfterOverrides.(xrefs :=
      QuirkAfterOverrides.xrefs[2 := XrefList(2, [], [Loc(3, 4, 5)], Nil, Nil, Nil, [Nil], false)])
  {
    var rels := QuirkRels;
    assert RelsFold(QuirkAfterDefs, rels[..1]) == QuirkAfterOverrides by {
      assert rels[..1][..0] == [];
      QuirkOverridesStep();
    }
    assert rels[..|rels| - 1] == rels[..1];
    var g := QuirkAfterOverrides;
    var q := Queue(g, 2, Nil);
    assert RelStep(g, rels[1]) == q;
    assert g.xrefs[2].toUpdate + [Nil] == [Nil];
    assert q.xrefs == g.xrefs[2 := g.xrefs[2].(toUpdate := [Nil])];
  }

  /** The overrides relationship gives the second node an `overriders` cell,
      so the derives branch allocates nothing and the third node queues the
      second's `derivers` pointer, which is nil. */
  lemma QuirkQueuesNil()
    ensures var g := Linked(QuirkDefs, [], [], QuirkRels);
            && g.order == [0, 1, 2] && 0 in g.xrefs && 1 in g.xrefs && 2 in g.xrefs
            && g.xrefs[0].defs == [Loc(3, 0, 1)] && g.xrefs[0].toUpdate == [At(1)]
            && g.xrefs[1].defs == [Loc(3, 2, 3)] && g.xrefs[1].toUpdate == [At(0)]
            && g.xrefs[2].defs == [Loc(3, 4, 5)] && g.xrefs[2].toUpdate == [Nil]
            && |g.cells| == 2
  {
    QuirkDefsFold();
    assert RefsFold(QuirkAfterDefs, [], LocSet([]) + LocSet(QuirkDefs)) == QuirkAfterDefs;
    QuirkRelsFold();
  }

  /** So the leftover loop dereferences that nil pointer when it reaches the
      third node, and the whole run fails. */
  lemma DerivesQuirkPanics()
    ensures Resolve(EmptyOutput, [], QuirkDefs, [], [], QuirkRels, ["x", "b", "c", "f.cc"]).None?
  {
    QuirkQueuesNil();
    var g := Linked(QuirkDefs, [], [], QuirkRels);
    var st0 := Stage(g, Combined(map[], []));
    assert CompsFold(st0, []) == Some(st0);
    var order := g.order;
    assert order[..2] == order[..|order| - 1];
    var l2 := LeftoverFold(st0, order[..2]);
    if l2.Some? {
      var st2 := l2.value;
      LeftoverFoldShape(st0, order[..2]);
      FlushFails(st2.g.cells, [Nil], Loc(3, 4, 5));
      assert LeftoverStep(st2, 2).None?;
    }
    assert LeftoverFold(st0, order).None?;
  }

  // ---------------------------------------------------------------------
  // Corpus assembly

  /** The logical content of the four located-node lists and the relationship
      list over a sequence of decoded units. */
  ghost function UnitsIncs(units: seq<Record>): set<NodeText>
    requires forall k :: 0 <= k < |units| ==> units[k].WellFormed()
  {
    if units == [] then {}
    else
      var u := units[|units| - 1];
      assert u.WellFormed();
      UnitsIncs(units[..|units| - 1]) + ResolvedNodes(u.strs, u.incs)
  }

  ghost function UnitsRefs(units: seq<Record>): set<NodeText>
    requires forall k :: 0 <= k < |units| ==> units[k].WellFormed()
  {
    if units == [] then {}
    else
      var u := units[|units| - 1];
      assert u.WellFormed();
      UnitsRefs(units[..|units| - 1]) + ResolvedNodes(u.strs, u.refs)
  }

  ghost function UnitsDefs(units: seq<Record>): set<NodeText>
    requires forall k :: 0 <= k < |units| ==> units[k].WellFormed()
  {
    if units == [] then {}
    else
      var u := units[|units| - 1];
      assert u.WellFormed();
      UnitsDefs(units[..|units| - 1]) + ResolvedNodes(u.strs, u.defs)
  }

  ghost function UnitsComps(units: seq<Record>): set<NodeText>
    requires forall k :: 0 <= k < |units| ==> units[k].WellFormed()
  {
    if units == [] then {}
    else
      var u := units[|units| - 1];
      assert u.WellFormed();
      UnitsComps(units[..|units| - 1]) + ResolvedNodes(u.strs, u.comps)
  }

  ghost function UnitsRels(units: seq<Record>): set<RelText>
    requires forall k :: 0 <= k < |units| ==> units[k].WellFormed()
  {
    if units == [] then {}
    else
      var u := units[|units| - 1];
      assert u.WellFormed();
      UnitsRels(units[..|units| - 1]) + ResolvedRels(u.strs, u.rels)
  }

  /** The merged record holds, read through its own table, exactly what the
      units hold, read through theirs. */
  ghost predicate Gathers(info: TUInfo, units: seq<Record>)
    reads info, info.strs
    requires info.Valid()
    requires forall k :: 0 <= k < |units| ==> units[k].WellFormed()
  {
    var tab := info.strs.strs;
    && ResolvedNodes(tab, info.incs) == UnitsIncs(units)
    && ResolvedNodes(tab, info.refs) == UnitsRefs(units)
    && ResolvedNodes(tab, info.defs) == UnitsDefs(units)
    && ResolvedNodes(tab, info.comps) == UnitsComps(units)
    && ResolvedRels(tab, info.rels) == UnitsRels(units)
  }

  /** Content read through a table does not change when the table grows. */
  lemma ResolvedNodesStable(tab: seq<string>, tab': seq<string>, s: seq<LocNode>)
    requires NodesIn(s, |tab|) && tab <= tab'
    ensures NodesIn(s, |tab'|) && ResolvedNodes(tab', s) == ResolvedNodes(tab, s)
  {
    forall i | 0 <= i < |s| ensures NodeIn(s[i], |tab'|) && ResolveNode(tab', s[i]) == ResolveNode(tab, s[i]) {
      ResolveNodeStable(tab, tab', s[i]);
    }
  }

  lemma ResolvedRelsStable(tab: seq<string>, tab': seq<string>, s: seq<Rel>)
    requires RelsIn(s, |tab|) && tab <= tab'
    ensures RelsIn(s, |tab'|) && ResolvedRels(tab', s) == ResolvedRels(tab, s)
  {
    forall i | 0 <= i < |s| ensures RelIn(s[i], |tab'|) && ResolveRel(tab', s[i]) == ResolveRel(tab, s[i]) {
      ResolveRelStable(tab, tab', s[i]);
    }
  }

  /** `ix.info.merge(tuinfo)` for one more unit. */
  method MergeUnit(info: TUInfo, u: Record, ghost done: seq<Record>)
    requires info.Valid() && info.strs.Writable() && u.WellFormed()
    requires forall k :: 0 <= k < |done| ==> done[k].WellFormed()
    requires Gathers(info, done)
    modifies info, info.strs
    ensures info.Valid() && info.strs.Writable()
    ensures forall k :: 0 <= k < |done + [u]| ==> (done + [u])[k].WellFormed()
    ensures Gathers(info, done + [u])
  {
    ghost var tab0 := info.strs.strs;
    ghost var incs, refs, defs, comps, rels := info.incs, info.refs, info.defs, info.comps, info.rels;
    info.Merge(u);
    ghost var tab := info.strs.strs;
    MergedNodesGrow(incs, info.incs, u.incs, tab0, tab, u.strs);
    MergedNodesGrow(refs, info.refs, u.refs, tab0, tab, u.strs);
    MergedNodesGrow(defs, info.defs, u.defs, tab0, tab, u.strs);
    MergedNodesGrow(comps, info.comps, u.comps, tab0, tab, u.strs);
    MergedRelsGrow(rels, info.rels, u.rels, tab0, tab, u.strs);
    UnitsStep(done, u);
  }

  /** What one more unit adds to the gathered content. */
  lemma UnitsStep(done: seq<Record>, u: Record)
    requires u.WellFormed() && forall k :: 0 <= k < |done| ==> done[k].WellFormed()
    ensures forall k :: 0 <= k < |done + [u]| ==> (done + [u])[k].WellFormed()
    ensures UnitsIncs(done + [u]) == UnitsIncs(done) + ResolvedNodes(u.strs, u.incs)
    ensures UnitsRefs(done + [u]) == UnitsRefs(done) + ResolvedNodes(u.strs, u.refs)
    ensures UnitsDefs(done + [u]) == UnitsDefs(done) + ResolvedNodes(u.strs, u.defs)
    ensures UnitsComps(done + [u]) == UnitsComps(done) + ResolvedNodes(u.strs, u.comps)
    ensures UnitsRels(done + [u]) == UnitsRels(done) + ResolvedRels(u.strs, u.rels)
  {
    assert (done + [u])[..|done|] == done;
  }

  /** A merged list, read through the grown table, holds what the list held
      before and what the merged-in list holds. */
  lemma MergedNodesGrow(before: seq<LocNode>, after: seq<LocNode>, source: seq<LocNode>,
                        tab0: seq<string>, tab: seq<string>, from: seq<string>)
    requires NodesIn(before, |tab0|) && tab0 <= tab && MergedNodes(before, after, source, tab, from)
    ensures ResolvedNodes(tab, after) == ResolvedNodes(tab0, before) + ResolvedNodes(from, source)
  {
    ResolvedNodesStable(tab0, tab, before);
    MergedNodesContent(before, after, source, tab, from);
  }

  lemma MergedRelsGrow(before: seq<Rel>, after: seq<Rel>, source: seq<Rel>,
                       tab0: seq<string>, tab: seq<string>, from: seq<string>)
    requires RelsIn(before, |tab0|) && tab0 <= tab && MergedRels(before, after, source, tab, from)
    ensures ResolvedRels(tab, after) == ResolvedRels(tab0, before) + ResolvedRels(from, source)
  {
    ResolvedRelsStable(tab0, tab, before);
    MergedRelsContent(before, after, source, tab, from);
  }

  /** `ix.info.dedup()`: content is kept. */
  method DedupUnits(info: TUInfo, ghost done: seq<Record>)
    requires info.Valid()
    requires forall k :: 0 <= k < |done| ==> done[k].WellFormed()
    requires Gathers(info, done)
    modifies info
    ensures info.Valid() && Gathers(info, done)
    ensures SortedBy(info.incs, NodeLe) && NoAdjacentEqual(info.incs)
    ensures SortedBy(info.refs, NodeLe) && NoAdjacentEqual(info.refs)
    ensures SortedBy(info.defs, NodeLe) && NoAdjacentEqual(info.defs)
    ensures SortedBy(info.comps, NodeLe) && NoAdjacentEqual(info.comps)
    ensures SortedBy(info.rels, RelLe) && NoAdjacentEqual(info.rels)
  {
    ghost var tab := info.strs.strs;
    ghost var incs, refs, defs, comps, rels := info.incs, info.refs, info.defs, info.comps, info.rels;
    info.Dedup();
    DedupedNodesContent(incs, tab);
    DedupedNodesContent(refs, tab);
    DedupedNodesContent(defs, tab);
    DedupedNodesContent(comps, tab);
    DedupedRelsContent(rels, tab);
    NodeOrder();
    RelOrder();
    DedupedProperties(incs, NodeLe);
    DedupedProperties(refs, NodeLe);
    DedupedProperties(defs, NodeLe);
    DedupedProperties(comps, NodeLe);
    DedupedProperties(rels, RelLe);
  }

  /** The merging loop of `corpus`: merge every unit into an empty record,
      deduplicating after every 64th and once at the end. */
  method Assemble(units: seq<Record>) returns (info: TUInfo)
    requires forall k :: 0 <= k < |units| ==> units[k].WellFormed()
    ensures fresh(info) && fresh(info.strs)
    ensures info.Valid() && info.strs.Writable() && Gathers(info, units)
    ensures SortedBy(info.incs, NodeLe) && NoAdjacentEqual(info.incs)
    ensures SortedBy(info.refs, NodeLe) && NoAdjacentEqual(info.refs)
    ensures SortedBy(info.defs, NodeLe) && NoAdjacentEqual(info.defs)
    ensures SortedBy(info.comps, NodeLe) && NoAdjacentEqual(info.comps)
    ensures SortedBy(info.rels, RelLe) && NoAdjacentEqual(info.rels)
  {
    info := new TUInfo();
    for i := 0 to |units|
      invariant fresh(info) && fresh(info.strs)
      invariant info.Valid() && info.strs.Writable()
      invariant Gathers(info, units[..i])
    {
      assert units[..i + 1] == units[..i] + [units[i]];
      MergeUnit(info, units[i], units[..i]);
      if i % 64 == 63 {
        DedupUnits(info, units[..i + 1]);
      }
    }
    assert units[..|units|] == units;
    DedupUnits(info, units);
  }

  /** `corpus`: assemble the units, then finish.  `merged` is the assembled
      record as `finish` received it. */
  method Corpus(units: seq<Record>) returns (ix: CorpusIndex, ok: bool, ghost merged: Record)
    requires forall k :: 0 <= k < |units| ==> units[k].WellFormed()
    ensures merged.WellFormed() && merged.strs == ix.info.strs.strs
    ensures ResolvedNodes(merged.strs, merged.refs) == UnitsRefs(units)
    ensures ResolvedNodes(merged.strs, merged.defs) == UnitsDefs(units)
    ensures ResolvedNodes(merged.strs, merged.comps) == UnitsComps(units)
    ensures ResolvedNodes(merged.strs, merged.incs) == UnitsIncs(units)
    ensures ResolvedRels(merged.strs, merged.rels) == UnitsRels(units)
    ensures ok <==> Resolve(EmptyOutput, merged.incs, merged.defs, merged.refs, merged.comps, merged.rels, merged.strs).Some?
    ensures ok ==> ix.Valid()
    ensures ok ==> ix.Current() == Resolve(EmptyOutput, merged.incs, merged.defs, merged.refs, merged.comps,
                                           merged.rels, merged.strs).value
  {
    var info := Assemble(units);
    merged := Record(info.incs, info.refs, info.defs, info.comps, info.rels, info.strs.strs);
    ix := new CorpusIndex(info);
    ok := ix.Finish();
  }
}
