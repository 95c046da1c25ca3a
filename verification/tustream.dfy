/** What the per-unit fold of kythe/cs/cmd/index/index.go (`processEntry`
    over a unit's entries) means for each part of its state: the
    definition-index and unreferenced blacklists, the names, and the raw
    include, definition and completion lists, stated in terms of the entry
    stream; and what `prepareXrefs` then yields for definitions and
    completions.  The tapp/lookup blacklist and the references are covered
    beside the fold itself. */
module TuStream {
  import opened Seqs
  import opened Records
  import opened TuBuilder

  /** The entry declares `x` an `absvar` node or is a `param` edge into `x`:
      either keeps `x`'s name out of the definition index. */
  predicate MarksNoName(e: Entry, x: string) {
    || (KindOf(e) == "absvar" && VnameStr(e.source) == x)
    || (e.edgeKind == "/kythe/edge/param" && VnameStr(e.target) == x)
  }

  /** The definition-index blacklist of a stream on its own. */
  function NoNameListed(es: seq<Entry>): set<string> {
    if es == [] then {} else StepDefIndexBlacklist(NoNameListed(es[..|es| - 1]), es[|es| - 1])
  }

  lemma FoldNoNameStep(es: seq<Entry>)
    requires es != []
    ensures FoldFacts(es).defIndexBlacklist == StepDefIndexBlacklist(FoldFacts(es[..|es| - 1]).defIndexBlacklist, es[|es| - 1])
  {
  }

  lemma {:induction false} FoldNoName(es: seq<Entry>)
    ensures FoldFacts(es).defIndexBlacklist == NoNameListed(es)
  {
    if es != [] {
      FoldNoName(es[..|es| - 1]);
      FoldNoNameStep(es);
    }
  }

  lemma {:induction false} NoNameListedMarks(es: seq<Entry>, x: string)
    ensures x in NoNameListed(es) <==> exists k :: 0 <= k < |es| && MarksNoName(es[k], x)
  {
    if es != [] {
      var init := es[..|es| - 1];
      NoNameListedMarks(init, x);
      if x in NoNameListed(init) {
        var k :| 0 <= k < |init| && MarksNoName(init[k], x);
        assert es[k] == init[k];
      }
      if exists k :: 0 <= k < |es| && MarksNoName(es[k], x) {
        var k :| 0 <= k < |es| && MarksNoName(es[k], x);
        if k < |init| {
          assert init[k] == es[k];
        }
      }
    }
  }

  /** A node is on the definition-index blacklist exactly when some entry
      declares it an `absvar` or is a `param` edge into it. */
  lemma DefIndexBlacklistOfStream(es: seq<Entry>, x: string)
    ensures x in FoldFacts(es).defIndexBlacklist <==> exists k :: 0 <= k < |es| && MarksNoName(es[k], x)
  {
    FoldNoName(es);
    NoNameListedMarks(es, x);
  }

  /** The entry declares `x` a `variable` node. */
  predicate MarksVariable(e: Entry, x: string) {
    KindOf(e) == "variable" && VnameStr(e.source) == x
  }

  /** The entry gives `x` the subkind `field`. */
  predicate MarksField(e: Entry, x: string) {
    e.factName == "/kythe/subkind" && e.factValue == "field" && VnameStr(e.source) == x
  }

  /** The unreferenced-marker blacklist of a stream on its own. */
  function UnrefListed(es: seq<Entry>): set<string> {
    if es == [] then {} else StepUnrefBlacklist(UnrefListed(es[..|es| - 1]), es[|es| - 1])
  }

  lemma FoldUnrefStep(es: seq<Entry>)
    requires es != []
    ensures FoldFacts(es).unrefBlacklist == StepUnrefBlacklist(FoldFacts(es[..|es| - 1]).unrefBlacklist, es[|es| - 1])
  {
  }

  lemma {:induction false} FoldUnref(es: seq<Entry>)
    ensures FoldFacts(es).unrefBlacklist == UnrefListed(es)
  {
    if es != [] {
      FoldUnref(es[..|es| - 1]);
      FoldUnrefStep(es);
    }
  }

  /** Entry `k` declares `x` a `variable` and no later entry makes it a field. */
  predicate VariableStays(es: seq<Entry>, k: nat, x: string)
    requires k < |es|
  {
    MarksVariable(es[k], x) && forall j :: k < j < |es| ==> !MarksField(es[j], x)
  }

  lemma UnrefStep(bl: set<string>, e: Entry, x: string)
    ensures x in StepUnrefBlacklist(bl, e) <==> (x in bl || MarksVariable(e, x)) && !MarksField(e, x)
  {
  }

  lemma VariableStaysExtend(es: seq<Entry>, k: nat, x: string)
    requires k < |es| - 1 && VariableStays(es[..|es| - 1], k, x) && !MarksField(es[|es| - 1], x)
    ensures VariableStays(es, k, x)
  {
    forall j | k < j < |es| ensures !MarksField(es[j], x) {
      if j < |es| - 1 {
        assert es[j] == es[..|es| - 1][j];
      }
    }
  }

  lemma VariableStaysShrink(es: seq<Entry>, k: nat, x: string)
    requires k < |es| - 1 && VariableStays(es, k, x)
    ensures VariableStays(es[..|es| - 1], k, x) && !MarksField(es[|es| - 1], x)
  {
    var init := es[..|es| - 1];
    assert init[k] == es[k];
    forall j | k < j < |init| ensures !MarksField(init[j], x) {
      assert init[j] == es[j];
    }
  }

  lemma {:induction false} UnrefListedMarks(es: seq<Entry>, x: string)
    ensures x in UnrefListed(es) <==> exists k :: 0 <= k < |es| && VariableStays(es, k, x)
  {
    if es != [] {
      var init, e := es[..|es| - 1], es[|es| - 1];
      UnrefListedMarks(init, x);
      UnrefStep(UnrefListed(init), e, x);
      if exists k :: 0 <= k < |es| && VariableStays(es, k, x) {
        var k :| 0 <= k < |es| && VariableStays(es, k, x);
        if k < |init| {
          VariableStaysShrink(es, k, x);
        }
      }
      if x in UnrefListed(init) && !MarksField(e, x) {
        var k :| 0 <= k < |init| && VariableStays(init, k, x);
        VariableStaysExtend(es, k, x);
      }
      if MarksVariable(e, x) {
        assert VariableStays(es, |es| - 1, x);
      }
    }
  }

  /** A node carries the unreferenced marker exactly when some entry
      declares it a `variable` and no later entry gives it the subkind
      `field`: the order of the two facts matters. */
  lemma UnrefBlacklistOfStream(es: seq<Entry>, x: string)
    ensures x in FoldFacts(es).unrefBlacklist <==>
      exists k :: 0 <= k < |es| && MarksVariable(es[k], x) && forall j :: k < j < |es| ==> !MarksField(es[j], x)
  {
    FoldUnref(es);
    UnrefListedMarks(es, x);
    assert forall k :: 0 <= k < |es| ==> (VariableStays(es, k, x) <==>
      MarksVariable(es[k], x) && forall j :: k < j < |es| ==> !MarksField(es[j], x));
  }

  /** The entry is a `named` edge from `x` that `asLanguageName` accepts. */
  predicate NamesNode(e: Entry, x: string) {
    e.edgeKind == "/kythe/edge/named" && '#' in e.target.signature && VnameStr(e.source) == x
  }

  /** The names of a stream on their own. */
  function NamesListed(es: seq<Entry>): map<string, string> {
    if es == [] then map[] else StepNames(NamesListed(es[..|es| - 1]), es[|es| - 1])
  }

  lemma FoldNamesStep(es: seq<Entry>)
    requires es != []
    ensures FoldFacts(es).names == StepNames(FoldFacts(es[..|es| - 1]).names, es[|es| - 1])
  {
  }

  lemma {:induction false} FoldNames(es: seq<Entry>)
    ensures FoldFacts(es).names == NamesListed(es)
  {
    if es != [] {
      FoldNames(es[..|es| - 1]);
      FoldNamesStep(es);
    }
  }

  /** No entry after `k` names `x` again. */
  predicate LastNaming(es: seq<Entry>, k: nat, x: string)
    requires k < |es|
  {
    NamesNode(es[k], x) && forall j :: k < j < |es| ==> !NamesNode(es[j], x)
  }

  lemma NamesStep(names: map<string, string>, e: Entry, x: string)
    ensures x in StepNames(names, e) <==> x in names || NamesNode(e, x)
    ensures NamesNode(e, x) ==> StepNames(names, e)[x] == AsLanguageName(e.target.signature)
    ensures !NamesNode(e, x) && x in names ==> StepNames(names, e)[x] == names[x]
  {
  }

  lemma LastNamingShrink(es: seq<Entry>, k: nat, x: string)
    requires k < |es| - 1 && LastNaming(es, k, x)
    ensures LastNaming(es[..|es| - 1], k, x) && !NamesNode(es[|es| - 1], x)
  {
    var init := es[..|es| - 1];
    assert init[k] == es[k];
    forall j | k < j < |init| ensures !NamesNode(init[j], x) {
      assert init[j] == es[j];
    }
  }

  lemma {:induction false} NamesListedHas(es: seq<Entry>, x: string)
    ensures x in NamesListed(es) <==> exists k :: 0 <= k < |es| && NamesNode(es[k], x)
  {
    if es != [] {
      var init, e := es[..|es| - 1], es[|es| - 1];
      NamesListedHas(init, x);
      NamesStep(NamesListed(init), e, x);
      if exists k :: 0 <= k < |init| && NamesNode(init[k], x) {
        var k :| 0 <= k < |init| && NamesNode(init[k], x);
        assert es[k] == init[k];
      }
      if exists k :: 0 <= k < |es| && NamesNode(es[k], x) {
        var k :| 0 <= k < |es| && NamesNode(es[k], x);
        if k < |init| {
          assert init[k] == es[k];
        }
      }
    }
  }

  lemma {:induction false} NamesListedLast(es: seq<Entry>, x: string)
    ensures forall k :: 0 <= k < |es| && LastNaming(es, k, x) ==>
      x in NamesListed(es) && NamesListed(es)[x] == AsLanguageName(es[k].target.signature)
  {
    if es != [] {
      var init, e := es[..|es| - 1], es[|es| - 1];
      NamesListedLast(init, x);
      NamesStep(NamesListed(init), e, x);
      forall k | 0 <= k < |es| && LastNaming(es, k, x)
        ensures x in NamesListed(es) && NamesListed(es)[x] == AsLanguageName(es[k].target.signature)
      {
        if k < |init| {
          LastNamingShrink(es, k, x);
          assert init[k] == es[k];
        }
      }
    }
  }

  /** A node has a name exactly when some accepted `named` edge leaves it,
      and the name is the language name of the last such edge. */
  lemma NamesOfStream(es: seq<Entry>, x: string)
    ensures x in FoldFacts(es).names <==> exists k :: 0 <= k < |es| && NamesNode(es[k], x)
    ensures forall k :: 0 <= k < |es| && LastNaming(es, k, x) ==>
      NameOf(FoldFacts(es).names, x) == AsLanguageName(es[k].target.signature)
  {
    FoldNames(es);
    NamesListedHas(es, x);
    NamesListedLast(es, x);
  }

  predicate IsIncEdge(e: Entry) {
    e.edgeKind == "/kythe/edge/ref/includes"
  }

  /** The raw include an include edge becomes. */
  function RawInc(e: Entry): TuInc {
    TuInc(ManglePath(e.source.path), VnameStr(e.source), ManglePath(e.target.path))
  }

  predicate RecordedDef(e: Entry) {
    IsDefEdge(e) && Recorded(e)
  }

  predicate RecordedComp(e: Entry) {
    IsCompEdge(e) && Recorded(e)
  }

  lemma StepRawOthers(r: Raw, e: Entry)
    ensures StepRaw(r, e).incs == if IsIncEdge(e) then r.incs + [RawInc(e)] else r.incs
    ensures StepRaw(r, e).defs == if RecordedDef(e) then r.defs + [RawNode(e)] else r.defs
    ensures StepRaw(r, e).comps == if RecordedComp(e) then r.comps + [RawNode(e)] else r.comps
  {
  }

  lemma {:induction false} FoldRawOthers(es: seq<Entry>)
    ensures FoldRaw(es).incs == FilterMap(es, IsIncEdge, RawInc)
    ensures FoldRaw(es).defs == FilterMap(es, RecordedDef, RawNode)
    ensures FoldRaw(es).comps == FilterMap(es, RecordedComp, RawNode)
  {
    if es != [] {
      FoldRawOthers(es[..|es| - 1]);
      StepRawOthers(FoldRaw(es[..|es| - 1]), es[|es| - 1]);
    }
  }

  /** The raw include list holds exactly the stream's include edges: Go
      records them whatever their path or target. */
  lemma IncsOfStream(es: seq<Entry>, x: TuInc)
    ensures x in FoldRaw(es).incs <==> exists k :: 0 <= k < |es| && IsIncEdge(es[k]) && x == RawInc(es[k])
  {
    FoldRawOthers(es);
    FilterMapMembers(es, IsIncEdge, RawInc, x);
  }

  /** `addLocNode` on `defines/binding` edges: the raw definitions are
      exactly the recorded binding edges. */
  lemma DefsOfStream(es: seq<Entry>, x: TuLocNode)
    ensures x in FoldRaw(es).defs <==> exists k :: 0 <= k < |es| && IsDefEdge(es[k]) && Recorded(es[k]) && x == RawNode(es[k])
  {
    FoldRawOthers(es);
    FilterMapMembers(es, RecordedDef, RawNode, x);
  }

  /** `addLocNode` on `completes` edges: the raw completions are exactly
      the recorded completes edges. */
  lemma CompsOfStream(es: seq<Entry>, x: TuLocNode)
    ensures x in FoldRaw(es).comps <==> exists k :: 0 <= k < |es| && IsCompEdge(es[k]) && Recorded(es[k]) && x == RawNode(es[k])
  {
    FoldRawOthers(es);
    FilterMapMembers(es, RecordedComp, RawNode, x);
  }

  /** `prepareXrefs` over the edges of a stream that `keep` selects. */
  lemma PreparedOfStream(es: seq<Entry>, keep: Entry -> bool, needname: bool, f: Facts, t: NodeText)
    ensures t in Prepared(FilterMap(es, keep, RawNode), needname, f) <==>
      exists k :: 0 <= k < |es| && keep(es[k]) && Kept(RawNode(es[k]), f) && t == Rendered(RawNode(es[k]), needname, f)
  {
    var xs := FilterMap(es, keep, RawNode);
    PreparedMembers(xs, needname, f, t);
    if t in Prepared(xs, needname, f) {
      var j :| 0 <= j < |xs| && Kept(xs[j], f) && t == Rendered(xs[j], needname, f);
      FilterMapMembers(es, keep, RawNode, xs[j]);
    }
    if exists k :: 0 <= k < |es| && keep(es[k]) && Kept(RawNode(es[k]), f) && t == Rendered(RawNode(es[k]), needname, f) {
      var k :| 0 <= k < |es| && keep(es[k]) && Kept(RawNode(es[k]), f) && t == Rendered(RawNode(es[k]), needname, f);
      FilterMapMembers(es, keep, RawNode, RawNode(es[k]));
      var j :| 0 <= j < |xs| && xs[j] == RawNode(es[k]);
    }
  }

  /** The located definitions of a unit: every one comes from a recorded
      binding edge whose target is no tapp/lookup node and whose anchor has
      both bounds, rendered with its name, and every such edge yields one. */
  lemma UnitDefs(es: seq<Entry>, t: NodeText)
    ensures var f := FoldFacts(es);
            t in Prepared(FoldRaw(es).defs, true, f) <==>
            exists k :: 0 <= k < |es| && IsDefEdge(es[k]) && Recorded(es[k]) && Kept(RawNode(es[k]), f)
                        && t == Rendered(RawNode(es[k]), true, f)
  {
    FoldRawOthers(es);
    PreparedOfStream(es, RecordedDef, true, FoldFacts(es), t);
  }

  /** The located completions of a unit, in the same terms. */
  lemma UnitComps(es: seq<Entry>, t: NodeText)
    ensures var f := FoldFacts(es);
            t in Prepared(FoldRaw(es).comps, true, f) <==>
            exists k :: 0 <= k < |es| && IsCompEdge(es[k]) && Recorded(es[k]) && Kept(RawNode(es[k]), f)
                        && t == Rendered(RawNode(es[k]), true, f)
  {
    FoldRawOthers(es);
    PreparedOfStream(es, RecordedComp, true, FoldFacts(es), t);
  }

  /** A rendered definition or completion has no name when an entry marks
      its node `absvar` or passes it as a `param`, and none when no `named`
      edge leaves it. */
  lemma RenderedNoNameOfStream(es: seq<Entry>, x: TuLocNode)
    requires Kept(x, FoldFacts(es))
    ensures var v, r := VnameStr(x.vn), Rendered(x, true, FoldFacts(es));
      && ((exists k :: 0 <= k < |es| && MarksNoName(es[k], v)) ==> r.name == "")
      && ((forall k :: 0 <= k < |es| ==> !NamesNode(es[k], v)) ==> r.name == "")
  {
    var v, f := VnameStr(x.vn), FoldFacts(es);
    RenderedFields(x, f);
    DefIndexBlacklistOfStream(es, v);
    FoldNames(es);
    NamesListedHas(es, v);
  }

  /** Otherwise its name is the language name of the last `named` edge
      from its node. */
  lemma RenderedNameOfStream(es: seq<Entry>, x: TuLocNode)
    requires Kept(x, FoldFacts(es))
    ensures var v, r := VnameStr(x.vn), Rendered(x, true, FoldFacts(es));
      (forall k :: 0 <= k < |es| ==> !MarksNoName(es[k], v)) ==>
        forall k :: 0 <= k < |es| && LastNaming(es, k, v) ==> r.name == AsLanguageName(es[k].target.signature)
  {
    var v, f := VnameStr(x.vn), FoldFacts(es);
    RenderedFields(x, f);
    DefIndexBlacklistOfStream(es, v);
    FoldNames(es);
    NamesListedLast(es, v);
  }

  /** A rendered definition or completion carries the unreferenced marker
      exactly when its node was declared a variable and not later a field. */
  lemma RenderedUnrefOfStream(es: seq<Entry>, x: TuLocNode)
    requires Kept(x, FoldFacts(es))
    ensures var v := VnameStr(x.vn);
      Rendered(x, true, FoldFacts(es)).noUnref <==>
        exists k :: 0 <= k < |es| && MarksVariable(es[k], v) && forall j :: k < j < |es| ==> !MarksField(es[j], v)
  {
    var v, f := VnameStr(x.vn), FoldFacts(es);
    RenderedFields(x, f);
    UnrefBlacklistOfStream(es, v);
  }

  lemma RenderedFields(x: TuLocNode, f: Facts)
    requires Kept(x, f)
    ensures var v := VnameStr(x.vn);
      && Rendered(x, true, f).name == (if v in f.defIndexBlacklist then "" else NameOf(f.names, v))
      && Rendered(x, true, f).noUnref == (v in f.unrefBlacklist)
  {
  }
}
