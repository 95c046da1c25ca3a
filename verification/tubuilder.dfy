/** The per-unit fact-stream consumer of the indexer (`tuindex` in
    kythe/cs/cmd/index/index.go): it reads Kythe entries one at a time into
    classification sets, an anchor table and raw lists, and at the end resolves
    the raw lists into the unit's `TUInfo`. */
module TuBuilder {
  import opened Wrappers
  import opened Seqs
  import opened Numbers
  import opened Sorting
  import opened Interner
  import opened Records

  /** A Kythe VName. */
  datatype VName = VName(signature: string, corpus: string, root: string, path: string, language: string)

  /** A Kythe entry: a fact about `source` (an empty edge kind), or an edge
      from `source` to `target`. */
  datatype Entry = Entry(source: VName, target: VName, factName: string, factValue: string, edgeKind: string)

  function Fields(v: VName): seq<string> {
    [v.signature, v.corpus, v.root, v.path, v.language]
  }

  /** `vnameStr`: the five fields joined by NUL characters. */
  function VnameStr(v: VName): string {
    v.signature + "\0" + v.corpus + "\0" + v.root + "\0" + v.path + "\0" + v.language
  }

  predicate NoNul(v: VName) {
    forall k :: 0 <= k < |Fields(v)| ==> '\0' !in Fields(v)[k]
  }

  /** The string of a VName is its fields joined by NUL, so splitting it at
      NUL gives the fields back when none of them holds a NUL. */
  lemma VnameStrSplit(v: VName)
    requires NoNul(v)
    ensures Split(VnameStr(v), '\0') == Fields(v)
  {
    var f := Fields(v);
    assert f[1..] == [v.corpus, v.root, v.path, v.language];
    assert f[1..][1..] == [v.root, v.path, v.language];
    assert f[1..][1..][1..] == [v.path, v.language];
    assert f[1..][1..][1..][1..] == [v.language];
    assert Join(f[1..][1..][1..], "\0") == v.path + "\0" + v.language;
    assert Join(f[1..][1..], "\0") == v.root + "\0" + v.path + "\0" + v.language;
    assert Join(f[1..], "\0") == v.corpus + "\0" + v.root + "\0" + v.path + "\0" + v.language;
    assert Join(f, "\0") == VnameStr(v);
    SplitJoin(f, '\0');
  }

  /** Different VNames without NUL characters get different strings. */
  lemma VnameStrInjective(a: VName, b: VName)
    requires NoNul(a) && NoNul(b) && VnameStr(a) == VnameStr(b)
    ensures a == b
  {
    VnameStrSplit(a);
    VnameStrSplit(b);
    assert Fields(a) == Fields(b);
    assert Fields(a)[0] == Fields(b)[0] && Fields(a)[4] == Fields(b)[4];
  }

  /** `manglePath`: drop one leading slash. */
  function ManglePath(p: string): (r: string)
    ensures p == r || p == "/" + r
    ensures |p| > 0 && p[0] == '/' ==> |r| == |p| - 1
  {
    if p != "" && p[0] == '/' then p[1..] else p
  }

  lemma ManglePathExamples()
    ensures ManglePath("/a/b") == "a/b" && ManglePath("a/b") == "a/b" && ManglePath("//a") == "/a" && ManglePath("") == ""
  {
    assert "/a/b"[1..] == "a/b";
    assert "//a"[1..] == "/a";
  }

  lemma LastHashFound(q: string)
    requires '#' in q
    ensures 0 <= LastIndexOf(q, "#") < |q|
  {
    var k :| 0 <= k < |q| && q[k] == '#';
    assert q[k..k + 1] == "#";
    assert OccursAt(q, "#", k);
  }

  /** A component is acceptable when it is non-empty and does not start with a digit. */
  predicate GoodComponent(p: string) {
    |p| > 0 && !IsDigit(p[0])
  }

  /** What the component loop of `asLanguageName` accumulates: for each
      component from the last to the first, "::" and the lower-cased
      component; None where the loop returns "" for a bad component. */
  function Accumulated(parts: seq<string>): Option<string> {
    if parts == [] then Some("")
    else
      match Accumulated(parts[1..])
      case None => None
      case Some(acc) => if GoodComponent(parts[0]) then Some(acc + "::" + ToLower(parts[0])) else None
  }

  /** `asLanguageName`: the language-level name of a qualified-name signature
      "c:b:a#..." is "a::b::c" lower-cased, or "" when it has none. */
  function AsLanguageName(qname: string): string
    requires '#' in qname
  {
    LastHashFound(qname);
    var q := qname[..LastIndexOf(qname, "#")];
    if '#' in q then ""
    else
      match Accumulated(Split(q, ':'))
      case None => ""
      case Some(acc) => if |acc| == 0 then "" else acc[2..]
  }

  function Lowered(parts: seq<string>): (r: seq<string>)
    ensures |r| == |parts|
  {
    seq(|parts|, k requires 0 <= k < |parts| => ToLower(parts[k]))
  }

  predicate AllGood(parts: seq<string>) {
    forall k :: 0 <= k < |parts| ==> GoodComponent(parts[k])
  }

  lemma JoinSnoc<T>(xs: seq<seq<T>>, y: seq<T>, sep: seq<T>)
    requires |xs| >= 1
    ensures Join(xs + [y], sep) == Join(xs, sep) + sep + y
  {
    if |xs| == 1 {
      assert (xs + [y])[1..] == [y];
    } else {
      assert (xs + [y])[1..] == xs[1..] + [y];
      JoinSnoc(xs[1..], y, sep);
    }
  }

  lemma {:induction false} AccumulatedSpec(parts: seq<string>)
    requires |parts| >= 1
    ensures Accumulated(parts).Some? <==> AllGood(parts)
    ensures AllGood(parts) ==> Accumulated(parts) == Some("::" + Join(Reverse(Lowered(parts)), "::"))
  {
    if |parts| == 1 {
      assert parts[1..] == [];
      assert Lowered(parts)[1..] == [];
      assert Reverse(Lowered(parts)) == [ToLower(parts[0])];
      assert "" + "::" + ToLower(parts[0]) == "::" + ToLower(parts[0]);
    } else {
      var tail := parts[1..];
      AccumulatedSpec(tail);
      assert Lowered(parts)[1..] == Lowered(tail);
      assert Reverse(Lowered(parts)) == Reverse(Lowered(tail)) + [ToLower(parts[0])];
      if AllGood(tail) {
        JoinSnoc(Reverse(Lowered(tail)), ToLower(parts[0]), "::");
      }
      if AllGood(parts) {
        assert AllGood(tail) by {
          forall k | 0 <= k < |tail| ensures GoodComponent(tail[k]) {
            assert tail[k] == parts[k + 1];
          }
        }
        var j := Join(Reverse(Lowered(tail)), "::");
        assert Accumulated(tail) == Some("::" + j);
        assert Accumulated(parts) == Some("::" + j + "::" + ToLower(parts[0]));
        assert Join(Reverse(Lowered(parts)), "::") == j + "::" + ToLower(parts[0]);
        assert "::" + j + "::" + ToLower(parts[0]) == "::" + (j + "::" + ToLower(parts[0]));
      } else if AllGood(tail) {
        forall k | 0 < k < |parts| ensures GoodComponent(parts[k]) {
          assert parts[k] == tail[k - 1];
        }
      }
    }
  }

  /** The reference reading of `asLanguageName`: cut at the last '#'; no
      name when another '#' is left or a ':'-component is empty or starts
      with a digit; otherwise the lower-cased components in reverse order
      joined by "::". */
  lemma AsLanguageNameSpec(qname: string)
    requires '#' in qname
    ensures LastIndexOf(qname, "#") >= 0
    ensures var q := qname[..LastIndexOf(qname, "#")];
            var parts := Split(q, ':');
            AsLanguageName(qname) == if '#' in q || !AllGood(parts) then "" else Join(Reverse(Lowered(parts)), "::")
  {
    LastHashFound(qname);
    var q := qname[..LastIndexOf(qname, "#")];
    var parts := Split(q, ':');
    AccumulatedSpec(parts);
  }

  lemma LastOfJoin(xs: seq<string>, sep: string)
    requires |xs| >= 1 && |xs[|xs| - 1]| > 0
    ensures |Join(xs, sep)| > 0 && Join(xs, sep)[|Join(xs, sep)| - 1] == xs[|xs| - 1][|xs[|xs| - 1]| - 1]
  {
    if |xs| > 1 {
      LastOfJoin(xs[1..], sep);
    }
  }

  lemma LowerKeepsColonFree(s: string)
    requires ':' !in s
    ensures ':' !in ToLower(s)
  {
    forall i | 0 <= i < |s| ensures ToLower(s)[i] != ':' {
      assert s[i] != ':';
    }
  }

  /** A language name never ends in ':', so the part after its last "::"
      (its unqualified name) is never empty. */
  lemma AsLanguageNameEnd(qname: string)
    requires '#' in qname
    ensures var r := AsLanguageName(qname); r != "" ==> r[|r| - 1] != ':'
  {
    AsLanguageNameSpec(qname);
    var q := qname[..LastIndexOf(qname, "#")];
    var parts := Split(q, ':');
    if !('#' in q) && AllGood(parts) {
      JoinSplit(q, ':');
      var rev := Reverse(Lowered(parts));
      assert rev == Reverse(Lowered(parts)[1..]) + [ToLower(parts[0])];
      assert rev[|rev| - 1] == ToLower(parts[0]);
      LowerKeepsColonFree(parts[0]);
      LastOfJoin(rev, "::");
      assert ToLower(parts[0])[|parts[0]| - 1] in ToLower(parts[0]);
    }
  }

  lemma QualifiedHash()
    ensures LastIndexOf("c:b:a#n", "#") == 5
  {
    assert OccursAt("c:b:a#n", "#", 5);
    assert "c:b:a#n"[6..7][0] == 'n';
    assert !OccursAt("c:b:a#n", "#", 6);
    assert LastIndexFrom("c:b:a#n", "#", 6) == 5;
  }

  lemma QualifiedSplit()
    ensures Split("c:b:a", ':') == ["c", "b", "a"]
  {
    assert "c:b:a" == "c" + ":" + ("b" + ":" + "a");
    SplitNoSep("a", ':');
    SplitPrefix("b", ':', "a");
    SplitPrefix("c", ':', "b" + ":" + "a");
  }

  lemma QualifiedAccumulated()
    ensures Accumulated(["c", "b", "a"]) == Some("::a::b::c")
  {
    var parts := ["c", "b", "a"];
    assert parts[1..] == ["b", "a"] && parts[1..][1..] == ["a"] && parts[1..][1..][1..] == [];
    assert ToLower("a") == "a" && ToLower("b") == "b" && ToLower("c") == "c";
    assert GoodComponent("a") && GoodComponent("b") && GoodComponent("c");
    assert "" + "::" + "a" == "::a" && "::a" + "::" + "b" == "::a::b" && "::a::b" + "::" + "c" == "::a::b::c";
    assert Accumulated(["a"]) == Some("::a");
    assert Accumulated(["b", "a"]) == Some("::a::b");
  }

  /** Worked examples of `asLanguageName`. */
  lemma AsLanguageNameQualified()
    ensures AsLanguageName("c:b:a#n") == "a::b::c"
  {
    QualifiedHash();
    assert "c:b:a#n"[..5] == "c:b:a";
    QualifiedSplit();
    QualifiedAccumulated();
    assert "::a::b::c"[2..] == "a::b::c";
  }

  lemma AsLanguageNameLowered()
    ensures AsLanguageName("Foo#n") == "foo"
  {
    assert LastIndexOf("Foo#n", "#") == 3 by {
      assert OccursAt("Foo#n", "#", 3);
      assert "Foo#n"[4..5][0] == 'n';
      assert !OccursAt("Foo#n", "#", 4);
      assert LastIndexFrom("Foo#n", "#", 4) == 3;
    }
    assert "Foo#n"[..3] == "Foo";
    SplitNoSep("Foo", ':');
    assert ["Foo"][1..] == [];
    assert ToLower("Foo") == "foo";
    assert GoodComponent("Foo");
    assert "" + "::" + "foo" == "::foo" && "::foo"[2..] == "foo";
  }

  lemma AsLanguageNameOperator()
    ensures AsLanguageName("x#y#n") == ""
  {
    assert LastIndexOf("x#y#n", "#") == 3 by {
      assert OccursAt("x#y#n", "#", 3);
      assert "x#y#n"[4..5][0] == 'n';
      assert !OccursAt("x#y#n", "#", 4);
      assert LastIndexFrom("x#y#n", "#", 4) == 3;
    }
    assert "x#y#n"[..3] == "x#y";
    assert "x#y"[1] == '#';
  }

  lemma AsLanguageNameDigit()
    ensures AsLanguageName("1x:a#n") == ""
  {
    assert LastIndexOf("1x:a#n", "#") == 4 by {
      assert OccursAt("1x:a#n", "#", 4);
      assert "1x:a#n"[5..6][0] == 'n';
      assert !OccursAt("1x:a#n", "#", 5);
      assert LastIndexFrom("1x:a#n", "#", 5) == 4;
    }
    assert "1x:a#n"[..4] == "1x" + ":" + "a";
    SplitNoSep("a", ':');
    SplitPrefix("1x", ':', "a");
    assert ["1x", "a"][1..] == ["a"] && ["a"][1..] == [];
    assert !GoodComponent("1x");
  }

  /** An anchor's bounds, each stored as offset+1 so that 0 means "not seen";
      a key missing from the table reads as both bounds unset. */
  datatype Anchor = Anchor(start: int, end: int)

  datatype TuLocNode = TuLocNode(path: string, anchor: string, vn: VName)

  datatype TuInc = TuInc(path: string, anchor: string, target: string)

  function AnchorOf(anchors: map<string, Anchor>, key: string): Anchor {
    if key in anchors then anchors[key] else Anchor(0, 0)
  }

  /** What `makeLoc` reads from the anchor table: both bounds, or nothing
      when either was never seen. */
  function AnchorSpan(anchors: map<string, Anchor>, key: string): Option<(int, int)> {
    var a := AnchorOf(anchors, key);
    if a.start == 0 || a.end == 0 then None else Some((Int32(a.start - 1), Int32(a.end - 1)))
  }

  /** The +1 encoding of an anchor bound loses nothing, except that an offset
      of -1 (mod 2^32) is stored as 0 and so reads as unset. */
  lemma AnchorEncoding(x: int)
    ensures Int32(Int32(x + 1) - 1) == Int32(x)
    ensures Int32(x + 1) == 0 <==> Int32(x) == -1
  {
    var y := Int32(x + 1);
    assert (y - (x + 1)) % TWO_32 == 0;
    assert ((y - 1) - x) % TWO_32 == 0;
    assert (Int32(y - 1) - (y - 1)) % TWO_32 == 0;
    assert (Int32(y - 1) - Int32(x)) % TWO_32 == 0 by {
      assert (Int32(x) - x) % TWO_32 == 0;
    }
    assert -TWO_32 < Int32(y - 1) - Int32(x) < TWO_32;
    if y == 0 {
      assert (0 - x - 1) % TWO_32 == 0;
      assert (-1 - x) % TWO_32 == 0;
    }
    if Int32(x) == -1 {
      assert (-1 - x) % TWO_32 == 0;
      assert (0 - (x + 1)) % TWO_32 == 0;
    }
  }

  /** `addLocNode`: record a raw reference/definition/completion unless its
      target is a builtin or the entry has no path. */
  function AddLocNode(xs: seq<TuLocNode>, path: string, e: Entry): seq<TuLocNode> {
    if HasSuffix(e.target.signature, "#builtin") then xs
    else if path != "" then xs + [TuLocNode(path, VnameStr(e.source), e.target)]
    else xs
  }

  /** The relationships one entry adds: an `extends` edge derives, an
      `overrides` edge overrides. */
  function AddedRels(e: Entry): seq<RelText> {
    if HasPrefix(e.edgeKind, "/kythe/edge/extends") then [RelText(Derives, VnameStr(e.source), VnameStr(e.target))]
    else if HasPrefix(e.edgeKind, "/kythe/edge/overrides") then [RelText(Overrides, VnameStr(e.source), VnameStr(e.target))]
    else []
  }

  /** `after` is `before` with entries appended that read as `added` through `tab`. */
  ghost predicate RelsAppended(before: seq<Rel>, after: seq<Rel>, tab: seq<string>, added: seq<RelText>) {
    && |after| == |before| + |added|
    && after[..|before|] == before
    && RelsIn(after, |tab|)
    && forall k :: 0 <= k < |added| ==> ResolveRel(tab, after[|before| + k]) == added[k]
  }

  /** The classification state of a unit, as `prepareXrefs` reads it. */
  datatype Facts = Facts(names: map<string, string>, anchors: map<string, Anchor>,
                         blacklist: set<string>, defIndexBlacklist: set<string>, unrefBlacklist: set<string>)

  function NameOf(names: map<string, string>, key: string): string {
    if key in names then names[key] else ""
  }

  /** A raw entry survives when its target is not a tapp/lookup node and both
      anchor bounds were seen. */
  predicate Kept(x: TuLocNode, f: Facts) {
    VnameStr(x.vn) !in f.blacklist && AnchorSpan(f.anchors, x.anchor).Some?
  }

  /** The located node a kept raw entry becomes: the anchor's bounds, the
      language name only when one is wanted and the target is not an
      absvar/param node, the target's string, and whether it is a variable. */
  function Rendered(x: TuLocNode, needname: bool, f: Facts): NodeText
    requires Kept(x, f)
  {
    var vnstr := VnameStr(x.vn);
    var span := AnchorSpan(f.anchors, x.anchor).value;
    var name := if needname && vnstr !in f.defIndexBlacklist then NameOf(f.names, vnstr) else "";
    NodeText(x.path, span.0, span.1, name, vnstr, vnstr in f.unrefBlacklist)
  }

  /** What `prepareXrefs` yields, read through the table. */
  function Prepared(xs: seq<TuLocNode>, needname: bool, f: Facts): seq<NodeText> {
    if xs == [] then []
    else
      var last := xs[|xs| - 1];
      Prepared(xs[..|xs| - 1], needname, f) + (if Kept(last, f) then [Rendered(last, needname, f)] else [])
  }

  /** `prepareXrefs` keeps exactly the kept raw entries, rendered. */
  lemma {:induction false} PreparedMembers(xs: seq<TuLocNode>, needname: bool, f: Facts, t: NodeText)
    ensures t in Prepared(xs, needname, f) <==> exists k :: 0 <= k < |xs| && Kept(xs[k], f) && t == Rendered(xs[k], needname, f)
  {
    if xs != [] {
      var init := xs[..|xs| - 1];
      PreparedMembers(init, needname, f, t);
      if t in Prepared(init, needname, f) {
        var k :| 0 <= k < |init| && Kept(init[k], f) && t == Rendered(init[k], needname, f);
        assert xs[k] == init[k];
      }
      if exists k :: 0 <= k < |xs| && Kept(xs[k], f) && t == Rendered(xs[k], needname, f) {
        var k :| 0 <= k < |xs| && Kept(xs[k], f) && t == Rendered(xs[k], needname, f);
        if k < |init| {
          assert init[k] == xs[k];
        }
      }
    }
  }

  /** Without `needname` every prepared node has the empty name. */
  lemma {:induction false} PreparedNoName(xs: seq<TuLocNode>, f: Facts)
    ensures forall k :: 0 <= k < |Prepared(xs, false, f)| ==> Prepared(xs, false, f)[k].name == ""
  {
    if xs != [] {
      PreparedNoName(xs[..|xs| - 1], f);
    }
  }

  /** The located includes `finish` yields: an include whose anchor is
      resolved, with the empty name, the included path as node and `noUnref` set. */
  function PreparedIncs(xs: seq<TuInc>, f: Facts): seq<NodeText> {
    if xs == [] then []
    else
      var last := xs[|xs| - 1];
      var span := AnchorSpan(f.anchors, last.anchor);
      PreparedIncs(xs[..|xs| - 1], f)
        + (if span.Some? then [NodeText(last.path, span.value.0, span.value.1, "", last.target, true)] else [])
  }

  /** The lists resolve, entry by entry, to `spec`. */
  ghost predicate ResolvesTo(nodes: seq<LocNode>, tab: seq<string>, spec: seq<NodeText>) {
    && NodesIn(nodes, |tab|)
    && |nodes| == |spec|
    && forall k :: 0 <= k < |nodes| ==> ResolveNode(tab, nodes[k]) == spec[k]
  }

  lemma ResolvesToStable(nodes: seq<LocNode>, tab: seq<string>, tab': seq<string>, spec: seq<NodeText>)
    requires ResolvesTo(nodes, tab, spec) && tab <= tab'
    ensures ResolvesTo(nodes, tab', spec)
  {
    forall k | 0 <= k < |nodes| ensures NodeIn(nodes[k], |tab'|) && ResolveNode(tab', nodes[k]) == spec[k] {
      ResolveNodeStable(tab, tab', nodes[k]);
    }
  }

  /** A `named` edge whose target signature holds no '#' makes `asLanguageName` panic. */
  predicate Panics(e: Entry) {
    e.edgeKind == "/kythe/edge/named" && '#' !in e.target.signature
  }

  /** The node kind an entry declares, or "" when it is no kind fact. */
  function KindOf(e: Entry): string {
    if e.factName == "/kythe/node/kind" then e.factValue else ""
  }

  /** How one entry changes each part of the classification state. */
  function StepBlacklist(bl: set<string>, e: Entry): set<string> {
    bl + (if KindOf(e) == "tapp" || KindOf(e) == "lookup" then {VnameStr(e.source)} else {})
  }

  function StepDefIndexBlacklist(bl: set<string>, e: Entry): set<string> {
    bl + (if KindOf(e) == "absvar" then {VnameStr(e.source)} else {})
       + (if e.edgeKind == "/kythe/edge/param" then {VnameStr(e.target)} else {})
  }

  function StepUnrefBlacklist(bl: set<string>, e: Entry): set<string> {
    bl + (if KindOf(e) == "variable" then {VnameStr(e.source)} else {})
       - (if e.factName == "/kythe/subkind" && e.factValue == "field" then {VnameStr(e.source)} else {})
  }

  function StepAnchors(anchors: map<string, Anchor>, e: Entry): map<string, Anchor> {
    var src := VnameStr(e.source);
    var a := AnchorOf(anchors, src);
    if e.factName == "/kythe/loc/start" then anchors[src := Anchor(Int32(Atoi(e.factValue) + 1), a.end)]
    else if e.factName == "/kythe/loc/end" then anchors[src := Anchor(a.start, Int32(Atoi(e.factValue) + 1))]
    else anchors
  }

  function StepNames(names: map<string, string>, e: Entry): map<string, string> {
    if e.edgeKind == "/kythe/edge/named" && '#' in e.target.signature
    then names[VnameStr(e.source) := AsLanguageName(e.target.signature)]
    else names
  }

  function StepFacts(f: Facts, e: Entry): Facts {
    Facts(StepNames(f.names, e), StepAnchors(f.anchors, e), StepBlacklist(f.blacklist, e),
          StepDefIndexBlacklist(f.defIndexBlacklist, e), StepUnrefBlacklist(f.unrefBlacklist, e))
  }

  /** The raw lists of a unit before `finish`. */
  datatype Raw = Raw(incs: seq<TuInc>, refs: seq<TuLocNode>, defs: seq<TuLocNode>, comps: seq<TuLocNode>)

  predicate IsRefEdge(e: Entry) {
    e.edgeKind == "/kythe/edge/ref" || e.edgeKind == "/kythe/edge/ref/expands"
  }

  predicate IsDefEdge(e: Entry) {
    e.edgeKind == "/kythe/edge/defines/binding"
  }

  predicate IsCompEdge(e: Entry) {
    e.edgeKind == "/kythe/edge/completes" || e.edgeKind == "/kythe/edge/completes/uniquely"
  }

  function StepRaw(r: Raw, e: Entry): Raw {
    var path := ManglePath(e.source.path);
    Raw(r.incs + (if e.edgeKind == "/kythe/edge/ref/includes"
                  then [TuInc(path, VnameStr(e.source), ManglePath(e.target.path))] else []),
        if IsRefEdge(e) then AddLocNode(r.refs, path, e) else r.refs,
        if IsDefEdge(e) then AddLocNode(r.defs, path, e) else r.defs,
        if IsCompEdge(e) then AddLocNode(r.comps, path, e) else r.comps)
  }

  /** The state after a stream of entries, from the zero state. */
  function FoldFacts(es: seq<Entry>): Facts {
    if es == [] then Facts(map[], map[], {}, {}, {})
    else StepFacts(FoldFacts(es[..|es| - 1]), es[|es| - 1])
  }

  function FoldRaw(es: seq<Entry>): Raw {
    if es == [] then Raw([], [], [], [])
    else StepRaw(FoldRaw(es[..|es| - 1]), es[|es| - 1])
  }

  function FoldRels(es: seq<Entry>): seq<RelText> {
    if es == [] then [] else FoldRels(es[..|es| - 1]) + AddedRels(es[|es| - 1])
  }

  /** A bound written by a loc/start and a loc/end fact reads back through
      `makeLoc` as written, unless one of them was -1. */
  lemma AnchorRoundTrip(f: Facts, es: Entry, ee: Entry)
    requires es.factName == "/kythe/loc/start" && ee.factName == "/kythe/loc/end"
    requires es.source == ee.source
    ensures var a := StepAnchors(StepAnchors(f.anchors, es), ee);
            var s := Int32(Atoi(es.factValue));
            var t := Int32(Atoi(ee.factValue));
            AnchorSpan(a, VnameStr(es.source)) == if s == -1 || t == -1 then None else Some((s, t))
  {
    AnchorEncoding(Atoi(es.factValue));
    AnchorEncoding(Atoi(ee.factValue));
  }

  /** A bound beyond int64 is clamped by strconv.Atoi to MaxInt64, and
      `start + 1` then wraps to MinInt64, whose low 32 bits are 0: the bound
      stays unset.  Below int64 it is clamped to MinInt64, and the stored
      bound reads as offset 0. */
  lemma AnchorOutOfRange(v: string)
    ensures Parsed(v) >= TWO_63 ==> Int32(Int64(Atoi(v) + 1)) == Int32(Atoi(v) + 1) == 0
    ensures Parsed(v) < -TWO_63 ==> Int32(Int64(Atoi(v) + 1)) == Int32(Atoi(v) + 1) == 1
  {
    AtoiClamps(v);
    Int32OfInt64(Atoi(v) + 1);
  }

  predicate MarksTemplate(e: Entry, x: string) {
    (KindOf(e) == "tapp" || KindOf(e) == "lookup") && VnameStr(e.source) == x
  }

  lemma FoldBlacklistStep(es: seq<Entry>)
    requires es != []
    ensures FoldFacts(es).blacklist == StepBlacklist(FoldFacts(es[..|es| - 1]).blacklist, es[|es| - 1])
  {
  }

  /** The tapp/lookup blacklist of a stream on its own. */
  function Blacklisted(es: seq<Entry>): set<string> {
    if es == [] then {} else StepBlacklist(Blacklisted(es[..|es| - 1]), es[|es| - 1])
  }

  lemma {:induction false} FoldBlacklist(es: seq<Entry>)
    ensures FoldFacts(es).blacklist == Blacklisted(es)
  {
    if es != [] {
      FoldBlacklist(es[..|es| - 1]);
      FoldBlacklistStep(es);
    }
  }

  lemma {:induction false} BlacklistedMarks(es: seq<Entry>, x: string)
    ensures x in Blacklisted(es) <==> exists k :: 0 <= k < |es| && MarksTemplate(es[k], x)
  {
    if es != [] {
      var init := es[..|es| - 1];
      BlacklistedMarks(init, x);
      if x in Blacklisted(init) {
        var k :| 0 <= k < |init| && MarksTemplate(init[k], x);
        assert es[k] == init[k];
      }
      if exists k :: 0 <= k < |es| && MarksTemplate(es[k], x) {
        var k :| 0 <= k < |es| && MarksTemplate(es[k], x);
        if k < |init| {
          assert init[k] == es[k];
        }
      }
    }
  }

  /** A node is a tapp/lookup node exactly when some entry of the stream says so. */
  lemma BlacklistOfStream(es: seq<Entry>, x: string)
    ensures x in FoldFacts(es).blacklist <==> exists k :: 0 <= k < |es| && MarksTemplate(es[k], x)
  {
    FoldBlacklist(es);
    BlacklistedMarks(es, x);
  }

  /** The raw entry a recorded edge becomes. */
  function RawNode(e: Entry): TuLocNode {
    TuLocNode(ManglePath(e.source.path), VnameStr(e.source), e.target)
  }

  /** An edge is recorded unless its target is a builtin or its source has no path. */
  predicate Recorded(e: Entry) {
    ManglePath(e.source.path) != "" && !HasSuffix(e.target.signature, "#builtin")
  }

  lemma StepRawRefs(r: Raw, e: Entry)
    ensures StepRaw(r, e).refs == if IsRefEdge(e) && Recorded(e) then r.refs + [RawNode(e)] else r.refs
  {
  }

  predicate RecordedRef(e: Entry) {
    IsRefEdge(e) && Recorded(e)
  }

  lemma {:induction false} FoldRawRefs(es: seq<Entry>)
    ensures FoldRaw(es).refs == FilterMap(es, RecordedRef, RawNode)
  {
    if es != [] {
      FoldRawRefs(es[..|es| - 1]);
      StepRawRefs(FoldRaw(es[..|es| - 1]), es[|es| - 1]);
    }
  }

  /** The raw reference list holds exactly the recorded ref edges of the stream. */
  lemma RefsOfStream(es: seq<Entry>, x: TuLocNode)
    ensures x in FoldRaw(es).refs <==> exists k :: 0 <= k < |es| && IsRefEdge(es[k]) && Recorded(es[k]) && x == RawNode(es[k])
  {
    FoldRawRefs(es);
    FilterMapMembers(es, RecordedRef, RawNode, x);
  }

  /** The located references of a unit: every one comes from a ref edge
      that was recorded, whose target is no tapp/lookup node and whose anchor
      has both bounds, and every such edge yields one. */
  lemma UnitRefs(es: seq<Entry>, t: NodeText)
    ensures var f := FoldFacts(es);
            t in Prepared(FoldRaw(es).refs, false, f) <==>
            exists k :: 0 <= k < |es| && IsRefEdge(es[k]) && Recorded(es[k]) && Kept(RawNode(es[k]), f)
                        && t == Rendered(RawNode(es[k]), false, f)
  {
    var f := FoldFacts(es);
    var refs := FoldRaw(es).refs;
    PreparedMembers(refs, false, f, t);
    if t in Prepared(refs, false, f) {
      var j :| 0 <= j < |refs| && Kept(refs[j], f) && t == Rendered(refs[j], false, f);
      RefsOfStream(es, refs[j]);
    }
    if exists k :: 0 <= k < |es| && IsRefEdge(es[k]) && Recorded(es[k]) && Kept(RawNode(es[k]), f)
                   && t == Rendered(RawNode(es[k]), false, f) {
      var k :| 0 <= k < |es| && IsRefEdge(es[k]) && Recorded(es[k]) && Kept(RawNode(es[k]), f)
               && t == Rendered(RawNode(es[k]), false, f);
      RefsOfStream(es, RawNode(es[k]));
      var j :| 0 <= j < |refs| && refs[j] == RawNode(es[k]);
    }
  }

  class TuIndex {
    var names: map<string, string>
    var anchors: map<string, Anchor>
    var nodeBlacklist: set<string>
    var nodeDefIndexBlacklist: set<string>
    var nodeUnrefBlacklist: set<string>
    const info: TUInfo
    var incs: seq<TuInc>
    var refs: seq<TuLocNode>
    var defs: seq<TuLocNode>
    var comps: seq<TuLocNode>

    ghost predicate Valid()
      reads this, info, info.strs
    {
      info.Valid() && info.strs.Writable()
    }

    function CurrentFacts(): Facts
      reads this
    {
      Facts(names, anchors, nodeBlacklist, nodeDefIndexBlacklist, nodeUnrefBlacklist)
    }

    function CurrentRaw(): Raw
      reads this
    {
      Raw(incs, refs, defs, comps)
    }

    /** `tuindex.init` on a zero `tuindex`. */
    constructor ()
      ensures Valid() && fresh(info) && fresh(info.strs)
      ensures CurrentFacts() == FoldFacts([]) && CurrentRaw() == FoldRaw([])
      ensures info.incs == [] && info.refs == [] && info.defs == [] && info.comps == [] && info.rels == []
    {
      names, anchors := map[], map[];
      nodeBlacklist, nodeDefIndexBlacklist, nodeUnrefBlacklist := {}, {}, {};
      incs, refs, defs, comps := [], [], [], [];
      info := new TUInfo();
    }

    /** The fact half of `processEntry`: node kinds, subkinds, `param` edges
        and anchor bounds. */
    method Classify(e: Entry)
      modifies this
      ensures nodeBlacklist == StepBlacklist(old(nodeBlacklist), e)
      ensures nodeDefIndexBlacklist == StepDefIndexBlacklist(old(nodeDefIndexBlacklist), e)
      ensures nodeUnrefBlacklist == StepUnrefBlacklist(old(nodeUnrefBlacklist), e)
      ensures anchors == StepAnchors(old(anchors), e)
      ensures names == old(names) && CurrentRaw() == old(CurrentRaw())
    {
      var src := VnameStr(e.source);
      if e.factName == "/kythe/node/kind" {
        var kind := e.factValue;
        if kind == "tapp" || kind == "lookup" {
          nodeBlacklist := nodeBlacklist + {src};
        }
        if kind == "absvar" {
          nodeDefIndexBlacklist := nodeDefIndexBlacklist + {src};
        }
        if kind == "variable" {
          nodeUnrefBlacklist := nodeUnrefBlacklist + {src};
        }
      }
      if e.factName == "/kythe/subkind" {
        if e.factValue == "field" {
          nodeUnrefBlacklist := nodeUnrefBlacklist - {src};
        }
      }
      if e.edgeKind == "/kythe/edge/param" {
        nodeDefIndexBlacklist := nodeDefIndexBlacklist + {VnameStr(e.target)};
      }
      if e.factName == "/kythe/loc/start" {
        var a := AnchorOf(anchors, src);
        anchors := anchors[src := a.(start := Int32(Atoi(e.factValue) + 1))];
      }
      if e.factName == "/kythe/loc/end" {
        var a := AnchorOf(anchors, src);
        anchors := anchors[src := a.(end := Int32(Atoi(e.factValue) + 1))];
      }
    }

    /** The interning of one relationship. */
    method AppendRel(kind: RelKind, src: string, dst: string)
      requires info.Valid() && info.strs.Writable()
      modifies info, info.strs
      ensures info.Valid() && info.strs.Writable()
      ensures old(info.strs.strs) <= info.strs.strs
      ensures RelsAppended(old(info.rels), info.rels, info.strs.strs, [RelText(kind, src, dst)])
      ensures info.incs == old(info.incs) && info.refs == old(info.refs) && info.defs == old(info.defs) && info.comps == old(info.comps)
    {
      ghost var tab0 := info.strs.strs;
      var s := info.strs.Idx(src);
      assert s.Success?;
      var d := info.strs.Idx(dst);
      assert d.Success?;
      forall k | 0 <= k < |info.rels| ensures RelIn(info.rels[k], |info.strs.strs|) {
        assert RelIn(info.rels[k], |tab0|);
      }
      forall k | 0 <= k < |info.incs| ensures NodeIn(info.incs[k], |info.strs.strs|) {
        ResolveNodeStable(tab0, info.strs.strs, info.incs[k]);
      }
      forall k | 0 <= k < |info.refs| ensures NodeIn(info.refs[k], |info.strs.strs|) {
        ResolveNodeStable(tab0, info.strs.strs, info.refs[k]);
      }
      forall k | 0 <= k < |info.defs| ensures NodeIn(info.defs[k], |info.strs.strs|) {
        ResolveNodeStable(tab0, info.strs.strs, info.defs[k]);
      }
      forall k | 0 <= k < |info.comps| ensures NodeIn(info.comps[k], |info.strs.strs|) {
        ResolveNodeStable(tab0, info.strs.strs, info.comps[k]);
      }
      info.rels := info.rels + [Rel(kind, s.value, d.value)];
      assert info.rels[..|old(info.rels)|] == old(info.rels);
    }

    /** The relationship half of `processEntry`. */
    method RecordRels(e: Entry)
      requires Valid()
      modifies info, info.strs
      ensures Valid()
      ensures old(info.strs.strs) <= info.strs.strs
      ensures RelsAppended(old(info.rels), info.rels, info.strs.strs, AddedRels(e))
      ensures info.incs == old(info.incs) && info.refs == old(info.refs) && info.defs == old(info.defs) && info.comps == old(info.comps)
    {
      var src := VnameStr(e.source);
      var isExtends := HasPrefix(e.edgeKind, "/kythe/edge/extends");
      assert isExtends ==> e.edgeKind[12] == 'e';
      if isExtends {
        AppendRel(Derives, src, VnameStr(e.target));
      }
      if HasPrefix(e.edgeKind, "/kythe/edge/overrides") {
        assert e.edgeKind[12] == 'o';
        AppendRel(Overrides, src, VnameStr(e.target));
      }
      assert !isExtends && !HasPrefix(e.edgeKind, "/kythe/edge/overrides") ==> info.rels == old(info.rels);
    }

    /** The edge half of `processEntry`: names and the raw lists. Fails where
        Go panics. */
    method RecordEdge(e: Entry) returns (ok: bool)
      modifies this
      ensures ok <==> !Panics(e)
      ensures names == StepNames(old(names), e)
      ensures CurrentRaw() == StepRaw(old(CurrentRaw()), e)
      ensures anchors == old(anchors) && nodeBlacklist == old(nodeBlacklist)
      ensures nodeDefIndexBlacklist == old(nodeDefIndexBlacklist) && nodeUnrefBlacklist == old(nodeUnrefBlacklist)
    {
      var path := ManglePath(e.source.path);
      var src := VnameStr(e.source);
      ok := true;
      if e.edgeKind == "/kythe/edge/named" {
        if '#' !in e.target.signature {
          ok := false;
          return;
        }
        names := names[src := AsLanguageName(e.target.signature)];
      }
      if e.edgeKind == "/kythe/edge/ref/includes" {
        incs := incs + [TuInc(path, src, ManglePath(e.target.path))];
      }
      if e.edgeKind == "/kythe/edge/ref" || e.edgeKind == "/kythe/edge/ref/expands" {
        refs := AddLocNode(refs, path, e);
      }
      if e.edgeKind == "/kythe/edge/defines/binding" {
        defs := AddLocNode(defs, path, e);
      }
      if e.edgeKind == "/kythe/edge/completes" || e.edgeKind == "/kythe/edge/completes/uniquely" {
        comps := AddLocNode(comps, path, e);
      }
    }

    /** `processEntry`: one entry's effect on the classification state, the
        relationships and the raw lists. The staging of raw file text is left
        out. Fails where Go panics: a `named` edge whose target signature
        holds no '#'. */
    method ProcessEntry(e: Entry) returns (ok: bool)
      requires Valid()
      modifies this, info, info.strs
      ensures Valid()
      ensures ok <==> !Panics(e)
      ensures CurrentFacts() == StepFacts(old(CurrentFacts()), e)
      ensures CurrentRaw() == StepRaw(old(CurrentRaw()), e)
      ensures old(info.strs.strs) <= info.strs.strs
      ensures RelsAppended(old(info.rels), info.rels, info.strs.strs, AddedRels(e))
      ensures info.incs == old(info.incs) && info.refs == old(info.refs) && info.defs == old(info.defs) && info.comps == old(info.comps)
    {
      Classify(e);
      RecordRels(e);
      ok := RecordEdge(e);
    }

    /** The state after `entries` have been processed, before `finish`. */
    ghost predicate Consumed(entries: seq<Entry>)
      reads this, info, info.strs
    {
      && Valid()
      && CurrentFacts() == FoldFacts(entries) && CurrentRaw() == FoldRaw(entries)
      && info.incs == [] && info.refs == [] && info.defs == [] && info.comps == []
      && RelsResolveTo(info.rels, info.strs.strs, FoldRels(entries))
    }

    lemma ConsumedAll(es: seq<Entry>)
      requires Consumed(es[..|es|])
      ensures Consumed(es)
    {
      assert es[..|es|] == es;
    }

    /** One turn of the entry loop of `tu`: entry `i`, after the ones
        before it. */
    method Feed(es: seq<Entry>, i: nat) returns (ok: bool)
      requires i < |es| && Consumed(es[..i])
      modifies this, info, info.strs
      ensures ok <==> !Panics(es[i])
      ensures ok ==> Consumed(es[..i + 1])
    {
      assert es[..i + 1] == es[..i] + [es[i]];
      ok := FeedEntry(es[..i], es[i]);
    }

    /** `processEntry` on `e` after the entries `pre`. */
    method FeedEntry(ghost pre: seq<Entry>, e: Entry) returns (ok: bool)
      requires Consumed(pre)
      modifies this, info, info.strs
      ensures ok <==> !Panics(e)
      ensures ok ==> Consumed(pre + [e])
    {
      FoldSnoc(pre, e);
      ghost var rels0, tab0 := info.rels, info.strs.strs;
      ok := ProcessEntry(e);
      RelsResolveToStep(rels0, info.rels, tab0, info.strs.strs, FoldRels(pre), AddedRels(e));
    }

    /** `makeLoc`: the location of an anchor, interning its path, or nothing
        when either bound is unset. */
    method MakeLoc(path: string, anchor: string) returns (r: Option<Loc>)
      requires info.strs.Valid() && info.strs.Writable()
      modifies info.strs
      ensures info.strs.Valid() && info.strs.Writable()
      ensures old(info.strs.strs) <= info.strs.strs
      ensures r.None? <==> AnchorSpan(anchors, anchor).None?
      ensures r.None? ==> info.strs.strs == old(info.strs.strs)
      ensures r.Some? ==> && r.value.path < |info.strs.strs| && info.strs.strs[r.value.path] == path
                          && (r.value.startByte, r.value.endByte) == AnchorSpan(anchors, anchor).value
    {
      var a := AnchorOf(anchors, anchor);
      if a.start == 0 || a.end == 0 {
        return None;
      }
      var p := info.strs.Idx(path);
      assert p.Success?;
      return Some(Loc(p.value, Int32(a.start - 1), Int32(a.end - 1)));
    }

    /** One iteration of `prepareXrefs`: the located node of a raw entry, or
        nothing when the entry is dropped. */
    method PrepareOne(xref: TuLocNode, needname: bool) returns (r: Option<LocNode>)
      requires info.strs.Valid() && info.strs.Writable()
      modifies info.strs
      ensures info.strs.Valid() && info.strs.Writable()
      ensures old(info.strs.strs) <= info.strs.strs
      ensures r.None? <==> !Kept(xref, CurrentFacts())
      ensures r.Some? ==> NodeIn(r.value, |info.strs.strs|)
                          && ResolveNode(info.strs.strs, r.value) == Rendered(xref, needname, CurrentFacts())
    {
      var vnstr := VnameStr(xref.vn);
      if vnstr in nodeBlacklist {
        return None;
      }
      var loc := MakeLoc(xref.path, xref.anchor);
      if loc.None? {
        return None;
      }
      var nameStr := if needname && vnstr !in nodeDefIndexBlacklist then NameOf(names, vnstr) else "";
      var name := info.strs.Idx(nameStr);
      assert name.Success?;
      var vn := info.strs.Idx(vnstr);
      assert vn.Success?;
      return Some(LocNode(loc.value, name.value, vn.value, vnstr in nodeUnrefBlacklist));
    }

    /** `prepareXrefs`: the kept raw entries as located nodes of the table. */
    method PrepareXrefs(xrefs: seq<TuLocNode>, needname: bool) returns (nodes: seq<LocNode>)
      requires info.strs.Valid() && info.strs.Writable()
      modifies info.strs
      ensures info.strs.Valid() && info.strs.Writable()
      ensures old(info.strs.strs) <= info.strs.strs
      ensures ResolvesTo(nodes, info.strs.strs, Prepared(xrefs, needname, CurrentFacts()))
    {
      nodes := [];
      var i := 0;
      while i != |xrefs|
        invariant 0 <= i <= |xrefs|
        invariant info.strs.Valid() && info.strs.Writable()
        invariant old(info.strs.strs) <= info.strs.strs
        invariant ResolvesTo(nodes, info.strs.strs, Prepared(xrefs[..i], needname, CurrentFacts()))
      {
        assert xrefs[..i + 1][..i] == xrefs[..i];
        ghost var tab0 := info.strs.strs;
        var node := PrepareOne(xrefs[i], needname);
        ResolvesToStable(nodes, tab0, info.strs.strs, Prepared(xrefs[..i], needname, CurrentFacts()));
        if node.Some? {
          nodes := nodes + [node.value];
        }
        i := i + 1;
      }
      assert xrefs[..i] == xrefs;
    }

    /** One iteration of the include loop of `finish`. */
    method PrepareInc(inc: TuInc) returns (r: Option<LocNode>)
      requires info.strs.Valid() && info.strs.Writable()
      modifies info.strs
      ensures info.strs.Valid() && info.strs.Writable()
      ensures old(info.strs.strs) <= info.strs.strs
      ensures var span := AnchorSpan(anchors, inc.anchor);
              && (r.None? <==> span.None?)
              && (r.Some? ==> NodeIn(r.value, |info.strs.strs|)
                              && ResolveNode(info.strs.strs, r.value)
                                 == NodeText(inc.path, span.value.0, span.value.1, "", inc.target, true))
    {
      var loc := MakeLoc(inc.path, inc.anchor);
      if loc.None? {
        return None;
      }
      var empty := info.strs.Idx("");
      assert empty.Success?;
      var target := info.strs.Idx(inc.target);
      assert target.Success?;
      return Some(LocNode(loc.value, empty.value, target.value, true));
    }

    method PrepareIncs(xs: seq<TuInc>) returns (nodes: seq<LocNode>)
      requires info.strs.Valid() && info.strs.Writable()
      modifies info.strs
      ensures info.strs.Valid() && info.strs.Writable()
      ensures old(info.strs.strs) <= info.strs.strs
      ensures ResolvesTo(nodes, info.strs.strs, PreparedIncs(xs, CurrentFacts()))
    {
      nodes := [];
      var i := 0;
      while i != |xs|
        invariant 0 <= i <= |xs|
        invariant info.strs.Valid() && info.strs.Writable()
        invariant old(info.strs.strs) <= info.strs.strs
        invariant ResolvesTo(nodes, info.strs.strs, PreparedIncs(xs[..i], CurrentFacts()))
      {
        assert xs[..i + 1][..i] == xs[..i];
        ghost var tab0 := info.strs.strs;
        var node := PrepareInc(xs[i]);
        ResolvesToStable(nodes, tab0, info.strs.strs, PreparedIncs(xs[..i], CurrentFacts()));
        if node.Some? {
          nodes := nodes + [node.value];
        }
        i := i + 1;
      }
      assert xs[..i] == xs;
    }

    /** `tuindex.finish`: resolve the includes, then the references,
        definitions and completions. */
    method Finish()
      requires Valid() && info.incs == []
      modifies info, info.strs
      ensures Valid()
      ensures old(info.strs.strs) <= info.strs.strs
      ensures info.rels == old(info.rels)
      ensures ResolvesTo(info.incs, info.strs.strs, PreparedIncs(incs, CurrentFacts()))
      ensures ResolvesTo(info.refs, info.strs.strs, Prepared(refs, false, CurrentFacts()))
      ensures ResolvesTo(info.defs, info.strs.strs, Prepared(defs, true, CurrentFacts()))
      ensures ResolvesTo(info.comps, info.strs.strs, Prepared(comps, true, CurrentFacts()))
    {
      ghost var tab0 := info.strs.strs;
      var n := PrepareIncs(incs);
      ghost var tab1 := info.strs.strs;
      var r := PrepareXrefs(refs, false);
      ghost var tab2 := info.strs.strs;
      var d := PrepareXrefs(defs, true);
      ghost var tab3 := info.strs.strs;
      var c := PrepareXrefs(comps, true);
      ghost var tab := info.strs.strs;
      forall k | 0 <= k < |info.rels| ensures RelIn(info.rels[k], |tab|) {
        ResolveRelStable(tab0, tab, info.rels[k]);
      }
      ResolvesToStable(n, tab1, tab, PreparedIncs(incs, CurrentFacts()));
      ResolvesToStable(r, tab2, tab, Prepared(refs, false, CurrentFacts()));
      ResolvesToStable(d, tab3, tab, Prepared(defs, true, CurrentFacts()));
      info.incs, info.refs, info.defs, info.comps := n, r, d, c;
    }
  }

  /** The relationships resolve, entry by entry, to `spec`. */
  ghost predicate RelsResolveTo(rels: seq<Rel>, tab: seq<string>, spec: seq<RelText>) {
    && RelsIn(rels, |tab|)
    && |rels| == |spec|
    && forall k :: 0 <= k < |rels| ==> ResolveRel(tab, rels[k]) == spec[k]
  }

  lemma RelsResolveToStep(rels: seq<Rel>, rels': seq<Rel>, tab: seq<string>, tab': seq<string>,
                          spec: seq<RelText>, added: seq<RelText>)
    requires RelsResolveTo(rels, tab, spec) && tab <= tab'
    requires RelsAppended(rels, rels', tab', added)
    ensures RelsResolveTo(rels', tab', spec + added)
  {
    forall k | 0 <= k < |rels'| ensures ResolveRel(tab', rels'[k]) == (spec + added)[k] {
      if k < |rels| {
        assert rels'[k] == rels'[..|rels|][k] == rels[k];
        ResolveRelStable(tab, tab', rels[k]);
      } else {
        assert ResolveRel(tab', rels'[|rels| + (k - |rels|)]) == added[k - |rels|];
      }
    }
  }

  function Elems<T>(s: seq<T>): set<T> {
    set x | x in s
  }

  lemma ResolvesToContent(nodes: seq<LocNode>, tab: seq<string>, spec: seq<NodeText>)
    requires ResolvesTo(nodes, tab, spec)
    ensures ResolvedNodes(tab, nodes) == Elems(spec)
  {
    forall t | t in Elems(spec) ensures t in ResolvedNodes(tab, nodes) {
      var k :| 0 <= k < |spec| && spec[k] == t;
      assert ResolveNode(tab, nodes[k]) == t;
    }
  }

  lemma RelsResolveToContent(rels: seq<Rel>, tab: seq<string>, spec: seq<RelText>)
    requires RelsResolveTo(rels, tab, spec)
    ensures ResolvedRels(tab, rels) == Elems(spec)
  {
    forall t | t in Elems(spec) ensures t in ResolvedRels(tab, rels) {
      var k :| 0 <= k < |spec| && spec[k] == t;
      assert ResolveRel(tab, rels[k]) == t;
    }
  }

  /** The logical content a finished, deduplicated unit holds for a stream:
      exactly its located includes, references, definitions, completions and
      relationships, each list sorted and without equal neighbours. */
  ghost predicate Summarizes(incs: seq<LocNode>, refs: seq<LocNode>, defs: seq<LocNode>, comps: seq<LocNode>,
                             rels: seq<Rel>, tab: seq<string>, entries: seq<Entry>)
  {
    var f := FoldFacts(entries);
    var raw := FoldRaw(entries);
    && NodesIn(incs, |tab|) && NodesIn(refs, |tab|) && NodesIn(defs, |tab|) && NodesIn(comps, |tab|)
    && RelsIn(rels, |tab|)
    && ResolvedNodes(tab, incs) == Elems(PreparedIncs(raw.incs, f))
    && ResolvedNodes(tab, refs) == Elems(Prepared(raw.refs, false, f))
    && ResolvedNodes(tab, defs) == Elems(Prepared(raw.defs, true, f))
    && ResolvedNodes(tab, comps) == Elems(Prepared(raw.comps, true, f))
    && ResolvedRels(tab, rels) == Elems(FoldRels(entries))
    && SortedBy(incs, NodeLe) && NoAdjacentEqual(incs)
    && SortedBy(refs, NodeLe) && NoAdjacentEqual(refs)
    && SortedBy(defs, NodeLe) && NoAdjacentEqual(defs)
    && SortedBy(comps, NodeLe) && NoAdjacentEqual(comps)
    && SortedBy(rels, RelLe) && NoAdjacentEqual(rels)
  }

  lemma DedupedSummarizes(incs: seq<LocNode>, refs: seq<LocNode>, defs: seq<LocNode>, comps: seq<LocNode>,
                          rels: seq<Rel>, tab: seq<string>, entries: seq<Entry>)
    requires var f := FoldFacts(entries);
             var raw := FoldRaw(entries);
             && ResolvesTo(incs, tab, PreparedIncs(raw.incs, f))
             && ResolvesTo(refs, tab, Prepared(raw.refs, false, f))
             && ResolvesTo(defs, tab, Prepared(raw.defs, true, f))
             && ResolvesTo(comps, tab, Prepared(raw.comps, true, f))
             && RelsResolveTo(rels, tab, FoldRels(entries))
    ensures Summarizes(Deduped(incs, NodeLe), Deduped(refs, NodeLe), Deduped(defs, NodeLe), Deduped(comps, NodeLe),
                       Deduped(rels, RelLe), tab, entries)
  {
    var f := FoldFacts(entries);
    var raw := FoldRaw(entries);
    ResolvesToContent(incs, tab, PreparedIncs(raw.incs, f));
    ResolvesToContent(refs, tab, Prepared(raw.refs, false, f));
    ResolvesToContent(defs, tab, Prepared(raw.defs, true, f));
    ResolvesToContent(comps, tab, Prepared(raw.comps, true, f));
    RelsResolveToContent(rels, tab, FoldRels(entries));
    DedupedNodesContent(incs, tab);
    DedupedNodesContent(refs, tab);
    DedupedNodesContent(defs, tab);
    DedupedNodesContent(comps, tab);
    DedupedRelsContent(rels, tab);
    NodeOrder();
    RelOrder();
    DedupedProperties(incs, NodeLe);
    DedupedProperties(refs, NodeLe);
    DedupedProperties(defs, NodeLe);
    DedupedProperties(comps, NodeLe);
    DedupedProperties(rels, RelLe);
  }

  lemma FoldSnoc(pre: seq<Entry>, e: Entry)
    ensures FoldFacts(pre + [e]) == StepFacts(FoldFacts(pre), e)
    ensures FoldRaw(pre + [e]) == StepRaw(FoldRaw(pre), e)
    ensures FoldRels(pre + [e]) == FoldRels(pre) + AddedRels(e)
  {
    assert (pre + [e])[..|pre|] == pre;
  }

  /** The entry loop of `tu`. Stops where Go panics. */
  method Consume(entries: seq<Entry>) returns (ix: TuIndex, ok: bool)
    ensures fresh(ix) && fresh(ix.info) && fresh(ix.info.strs)
    ensures ok <==> forall k :: 0 <= k < |entries| ==> !Panics(entries[k])
    ensures ok ==> ix.Consumed(entries)
  {
    ix := new TuIndex();
    var i := 0;
    while i != |entries|
      invariant 0 <= i <= |entries|
      invariant ix.Consumed(entries[..i])
      invariant forall k :: 0 <= k < i ==> !Panics(entries[k])
    {
      ok := ix.Feed(entries, i);
      if !ok {
        return;
      }
      i := i + 1;
    }
    ix.ConsumedAll(entries);
    ok := true;
  }

  /** `tu`: consume the entries of one compilation unit, finish and
      deduplicate. Fails where Go panics. */
  method Tu(entries: seq<Entry>) returns (r: Option<TUInfo>)
    ensures r.None? <==> exists k :: 0 <= k < |entries| && Panics(entries[k])
    ensures r.Some? ==> r.value.Valid()
    ensures r.Some? ==> Summarizes(r.value.incs, r.value.refs, r.value.defs, r.value.comps, r.value.rels,
                                   r.value.strs.strs, entries)
  {
    var ix, ok := Consume(entries);
    if !ok {
      return None;
    }
    ix.Finish();
    var info := ix.info;
    DedupedSummarizes(info.incs, info.refs, info.defs, info.comps, info.rels, info.strs.strs, entries);
    info.Dedup();
    return Some(info);
  }
}
