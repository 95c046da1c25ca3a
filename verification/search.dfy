/** The ranked search of kythe/cs/service/service.go (`Index.search`):
    definition-name matches scored by reference count and by how much of the
    unqualified name they cover, file-name matches, a cap of 100 results, and
    full-text matches appended after the scored ones until the cap is hit.

    The regular-expression engine and the trigram posting index are not part
    of this model: whether the pattern compiles, the matcher and the list of
    candidate files are parameters. */
module Search {
  import opened Wrappers
  import opened Seqs
  import opened Sorting
  import opened Numbers
  import opened DefIndex

  /** `maxmatches`. */
  const MAX_MATCHES: nat := 100

  /** A float32 score, modelled as an exact rational number, or NaN where
      Go divides zero by zero. */
  datatype Score = Num(value: real) | NaN

  /** Go's `>` on floats: false as soon as either side is NaN. */
  predicate Greater(a: Score, b: Score) {
    a.Num? && b.Num? && a.value > b.value
  }

  /** `textmatch`. */
  datatype TextMatch = TextMatch(filename: string, startByte: int, endByte: int, score: Score)

  datatype SearchError =
    | BadPattern   // regexp.Compile failed: the result is nil with the error
    | MissingFile  // a candidate file has no source data: Go panics

  /** The matcher `cre.Match(text, beginText, true)`: -1 when there is no
      match, otherwise the end of the first match, which is past the
      start of `text` and within it. */
  type Matcher = (seq<Byte>, bool) -> int

  ghost predicate MatcherOk(re: Matcher) {
    forall text, begin :: re(text, begin) == -1 || 1 <= re(text, begin) <= |text|
  }

  /** The loaded index: the definition index and every file's bytes. */
  datatype Index = Index(didx: seq<File>, files: map<string, seq<Byte>>)

  // ---------------------------------------------------------------------
  // Definition and file-name matches
  // ---------------------------------------------------------------------

  /** Where the unqualified name starts: just past the last "::", or 0 when
      there is none. */
  function UnqualifiedStart(fullName: string): (r: nat)
    ensures r <= |fullName|
    ensures r == 0 <==> forall j :: !OccursAt(fullName, "::", j)
    ensures r > 0 ==> OccursAt(fullName, "::", r - 2) && forall j :: r - 2 < j ==> !OccursAt(fullName, "::", j)
  {
    var b := LastIndexOf(fullName, "::") + 2;
    if b == 1 then 0 else b
  }

  /** `float32(refCount) * float32(matched) / float32(rest)`, exactly; the
      only zero divisor that occurs comes with a zero numerator. */
  function Ratio(refCount: nat, matched: nat, rest: nat): Score
    requires rest == 0 ==> matched == 0
  {
    if rest == 0 then NaN else Num(refCount as real * matched as real / rest as real)
  }

  /** The match of one definition, if any: the first occurrence of the
      lower-cased pattern, rejected when it ends before the unqualified
      name, with its start clamped to that name. */
  function DefMatch(pat: string, file: string, def: Definition): Option<TextMatch> {
    MatchAt(file, def, IndexOf(def.fullName, ToLower(pat)), |pat|, UnqualifiedStart(def.fullName))
  }

  /** The rest of `DefMatch` once the occurrence `first` (or -1) and the
      unqualified name's start `b` are known. */
  function MatchAt(file: string, def: Definition, first: int, patLen: nat, b: nat): Option<TextMatch>
    requires b <= |def.fullName| && (first != -1 ==> 0 <= first && first + patLen <= |def.fullName|)
  {
    if first == -1 then None
    else
      var matchEnd := first + patLen;
      if matchEnd < b then None
      else
        var start := if first < b then b else first;
        Some(TextMatch(file, def.startByte, def.endByte, Ratio(def.refCount, matchEnd - start, |def.fullName| - b)))
  }

  /** A definition matches exactly when the lower-cased pattern occurs in
      its full name and its first occurrence reaches the unqualified name;
      the match spans the definition, and its score is NaN exactly when the
      unqualified name is empty, otherwise between 0 and the reference
      count. */
  lemma DefMatchSpec(pat: string, file: string, def: Definition)
    ensures var first := IndexOf(def.fullName, ToLower(pat));
      DefMatch(pat, file, def).Some? <==> first != -1 && first + |pat| >= UnqualifiedStart(def.fullName)
    ensures DefMatch(pat, file, def).Some? ==>
      var m := DefMatch(pat, file, def).value;
      && m.filename == file && m.startByte == def.startByte && m.endByte == def.endByte
      && (m.score.NaN? <==> UnqualifiedStart(def.fullName) == |def.fullName|)
      && (m.score.Num? ==> 0.0 <= m.score.value <= def.refCount as real)
  {
    MatchAtSpec(file, def, IndexOf(def.fullName, ToLower(pat)), |pat|, UnqualifiedStart(def.fullName));
  }

  lemma MatchAtSpec(file: string, def: Definition, first: int, patLen: nat, b: nat)
    requires b <= |def.fullName| && (first != -1 ==> 0 <= first && first + patLen <= |def.fullName|)
    ensures MatchAt(file, def, first, patLen, b).Some? <==> first != -1 && first + patLen >= b
    ensures MatchAt(file, def, first, patLen, b).Some? ==>
      var m := MatchAt(file, def, first, patLen, b).value;
      && m.filename == file && m.startByte == def.startByte && m.endByte == def.endByte
      && (m.score.NaN? <==> b == |def.fullName|)
      && (m.score.Num? ==> 0.0 <= m.score.value <= def.refCount as real)
  {
    if first != -1 && first + patLen >= b {
      var start := if first < b then b else first;
      var matched, rest := first + patLen - start, |def.fullName| - b;
      assert MatchAt(file, def, first, patLen, b).value.score == Ratio(def.refCount, matched, rest);
      if rest > 0 {
        RatioBounds(def.refCount, matched, rest);
      }
    }
  }

  lemma RatioBounds(refCount: nat, matched: nat, rest: nat)
    requires 0 < rest && matched <= rest
    ensures Ratio(refCount, matched, rest).Num?
    ensures 0.0 <= Ratio(refCount, matched, rest).value <= refCount as real
  {
    var c, m, r := refCount as real, matched as real, rest as real;
    ScaleBounds(c, m, r);
    QuotientBounds(c * m, c * r, r);
    Cancel(c, r);
  }

  lemma Cancel(c: real, r: real)
    requires 0.0 < r
    ensures c * r / r == c
  {
  }

  lemma ScaleBounds(c: real, m: real, r: real)
    requires 0.0 <= c && 0.0 <= m <= r
    ensures 0.0 <= c * m <= c * r
  {
  }

  lemma QuotientBounds(x: real, y: real, r: real)
    requires 0.0 <= x <= y && 0.0 < r
    ensures 0.0 <= x / r <= y / r
  {
  }

  /** The file-name match: the first occurrence of the lower-cased pattern
      in the lower-cased name must end at the end of the name. */
  function FileMatch(pat: string, f: File): (r: Option<TextMatch>)
    ensures r.Some? <==> IndexOf(f.nameLower, ToLower(pat)) != -1 && IndexOf(f.nameLower, ToLower(pat)) + |pat| == |f.name|
    ensures r.Some? ==> r.value == TextMatch(f.name, 0, 0, Num(0.0))
  {
    var fmatch := IndexOf(f.nameLower, ToLower(pat));
    if fmatch != -1 && fmatch + |pat| == |f.name| then Some(TextMatch(f.name, 0, 0, Num(0.0))) else None
  }

  /** Only the first occurrence counts: a pattern that ends the file name
      but also occurs earlier in it gives no file-name match. */
  lemma FileMatchFirstOccurrence()
    ensures HasSuffix("a/a", "a")
    ensures FileMatch("a", File("a/a", "a/a", [])) == None
  {
    assert OccursAt("a/a", "a", 0);
    assert ToLower("a") == "a";
  }

  function OptSeq<T>(o: Option<T>): seq<T> {
    if o.Some? then [o.value] else []
  }

  /** The values `f` gives for `xs`, in order, where it gives one. */
  function Collect<A, B>(f: A -> Option<B>, xs: seq<A>): seq<B> {
    if xs == [] then [] else Collect(f, xs[..|xs| - 1]) + OptSeq(f(xs[|xs| - 1]))
  }

  /** The sequences `g` gives for `xs`, one after the other. */
  function FlatMap<A, B>(g: A -> seq<B>, xs: seq<A>): seq<B> {
    if xs == [] then [] else FlatMap(g, xs[..|xs| - 1]) + g(xs[|xs| - 1])
  }

  lemma {:induction false} CollectMembers<A, B>(f: A -> Option<B>, xs: seq<A>, y: B)
    ensures y in Collect(f, xs) <==> exists j :: 0 <= j < |xs| && f(xs[j]) == Some(y)
  {
    if xs != [] {
      var init := xs[..|xs| - 1];
      CollectMembers(f, init, y);
      if exists j :: 0 <= j < |xs| && f(xs[j]) == Some(y) {
        var j :| 0 <= j < |xs| && f(xs[j]) == Some(y);
        if j < |init| {
          assert init[j] == xs[j];
        }
      }
      if exists j :: 0 <= j < |init| && f(init[j]) == Some(y) {
        var j :| 0 <= j < |init| && f(init[j]) == Some(y);
        assert xs[j] == init[j];
      }
    }
  }

  lemma {:induction false} FlatMapMembers<A, B>(g: A -> seq<B>, xs: seq<A>, y: B)
    ensures y in FlatMap(g, xs) <==> exists i :: 0 <= i < |xs| && y in g(xs[i])
  {
    if xs != [] {
      var init := xs[..|xs| - 1];
      FlatMapMembers(g, init, y);
      if exists i :: 0 <= i < |xs| && y in g(xs[i]) {
        var i :| 0 <= i < |xs| && y in g(xs[i]);
        if i < |init| {
          assert init[i] == xs[i];
        }
      }
      if exists i :: 0 <= i < |init| && y in g(init[i]) {
        var i :| 0 <= i < |init| && y in g(init[i]);
        assert xs[i] == init[i];
      }
    }
  }

  /** The definition matches of one file, in order. */
  function DefMatches(pat: string, file: string, defs: seq<Definition>): seq<TextMatch> {
    Collect(d => DefMatch(pat, file, d), defs)
  }

  /** What the first loop collects for one file: its definition matches,
      then its file-name match. */
  function FileMatches(pat: string, f: File): seq<TextMatch> {
    DefMatches(pat, f.name, f.defs) + OptSeq(FileMatch(pat, f))
  }

  /** What the first loop collects over the definition index. */
  function DefPhase(pat: string, files: seq<File>): seq<TextMatch> {
    FlatMap(f => FileMatches(pat, f), files)
  }

  /** A match of one file is one of its definitions' matches or its
      file-name match. */
  lemma FileMatchesMembers(pat: string, f: File, m: TextMatch)
    ensures m in FileMatches(pat, f) <==>
      (exists j :: 0 <= j < |f.defs| && DefMatch(pat, f.name, f.defs[j]) == Some(m)) || FileMatch(pat, f) == Some(m)
  {
    CollectMembers(d => DefMatch(pat, f.name, d), f.defs, m);
  }

  /** The first loop collects exactly the definition matches and the
      file-name matches of the index's files. */
  lemma DefPhaseMembers(pat: string, files: seq<File>, m: TextMatch)
    ensures m in DefPhase(pat, files) <==>
      exists i :: 0 <= i < |files| &&
        ((exists j :: 0 <= j < |files[i].defs| && DefMatch(pat, files[i].name, files[i].defs[j]) == Some(m))
         || FileMatch(pat, files[i]) == Some(m))
  {
    FlatMapMembers(f => FileMatches(pat, f), files, m);
    forall i | 0 <= i < |files| {
      FileMatchesMembers(pat, files[i], m);
    }
  }

  // ---------------------------------------------------------------------
  // Ranking
  // ---------------------------------------------------------------------

  /** The order the matches are sorted in: by non-increasing score, with
      NaN scores after all numbers (Go's `sort.Sort` with `byScore` gives no
      defined order once a NaN is present). */
  predicate ScoreLe(a: TextMatch, b: TextMatch) {
    if a.score.NaN? then b.score.NaN? else b.score.NaN? || a.score.value >= b.score.value
  }

  lemma ScoreLeIsOrder()
    ensures Total(ScoreLe) && Transitive(ScoreLe)
  {
  }

  /** Where no score is NaN, the order is the one `byScore.Less` defines:
      `a` may come before `b` exactly when `b` does not score more. */
  lemma ScoreLeIsByScore(a: TextMatch, b: TextMatch)
    requires a.score.Num? && b.score.Num?
    ensures ScoreLe(a, b) <==> !Greater(b.score, a.score)
  {
  }

  // ---------------------------------------------------------------------
  // Full-text matches
  // ---------------------------------------------------------------------

  /** Some match of `name` has `startByte < offset <= endByte`. */
  predicate Covered(tm: seq<TextMatch>, name: string, offset: int) {
    exists k :: 0 <= k < |tm| && tm[k].filename == name && tm[k].startByte < offset <= tm[k].endByte
  }

  /** Entry `k` is a full-text hit: an empty span with score 0 that no
      earlier match of its file covers. */
  predicate FullTextHit(tm: seq<TextMatch>, k: nat)
    requires k < |tm|
  {
    && tm[k].score == Num(0.0) && tm[k].startByte == tm[k].endByte
    && !Covered(tm[..k], tm[k].filename, tm[k].startByte)
  }

  /** The scan of one file from `offset` on (`matchloop`): every match end
      the matcher reports that no earlier match covers is appended, until
      the matcher finds nothing more or the results reach the cap. */
  function ScanFrom(re: Matcher, src: seq<Byte>, name: string, acc: seq<TextMatch>, offset: nat, begin: bool): (r: seq<TextMatch>)
    requires MatcherOk(re) && offset <= |src| && |acc| < MAX_MATCHES
    ensures |acc| <= |r| <= MAX_MATCHES && r[..|acc|] == acc
    ensures forall k :: |acc| <= k < |r| ==> r[k].filename == name && FullTextHit(r, k)
    decreases |src| - offset
  {
    var m := re(src[offset..], begin);
    if m == -1 then acc
    else
      var off := offset + m;
      if Covered(acc, name, off) then ScanFrom(re, src, name, acc, off, false)
      else
        var next := acc + [TextMatch(name, off, off, Num(0.0))];
        assert next[..|acc|] == acc;
        if |next| == MAX_MATCHES then next
        else
          var r := ScanFrom(re, src, name, next, off, false);
          assert r[..|acc|] == r[..|next|][..|acc|];
          assert r[|acc|] == next[|acc|];
          r
  }

  /** The scan of the candidate files (`fileloop`): a file without source
      data panics; the scan stops as soon as the results reach the cap. */
  function ScanFiles(re: Matcher, files: map<string, seq<Byte>>, post: seq<string>, acc: seq<TextMatch>): (r: Result<seq<TextMatch>, SearchError>)
    requires MatcherOk(re) && |acc| < MAX_MATCHES
    ensures r.Success? ==> |acc| <= |r.value| <= MAX_MATCHES && r.value[..|acc|] == acc
    ensures r.Success? ==> forall k :: |acc| <= k < |r.value| ==> r.value[k].filename in post && FullTextHit(r.value, k)
    ensures r.Failure? ==> r.error == MissingFile && exists i :: 0 <= i < |post| && post[i] !in files
    decreases |post|
  {
    if post == [] then Success(acc)
    else if post[0] !in files then Failure(MissingFile)
    else
      var next := ScanFrom(re, files[post[0]], post[0], acc, 0, true);
      if |next| == MAX_MATCHES then Success(next)
      else
        var r := ScanFiles(re, files, post[1..], next);
        if r.Success? then
          assert r.value[..|acc|] == r.value[..|next|][..|acc|];
          assert forall k :: |acc| <= k < |next| ==> r.value[..k] == next[..k];
          assert forall k :: |next| <= k < |r.value| ==> r.value[k].filename in post;
          r
        else
          var i :| 0 <= i < |post[1..]| && post[1..][i] !in files;
          assert post[i + 1] !in files;
          r
  }

  // ---------------------------------------------------------------------
  // The search
  // ---------------------------------------------------------------------

  /** What `search` returns: the definition and file-name matches by
      score, cut to the cap; below the cap, a pattern that does not compile
      fails, and otherwise the full-text hits follow. */
  function SearchResult(ix: Index, pat: string, compiles: bool, re: Matcher, post: seq<string>): Result<seq<TextMatch>, SearchError>
    requires MatcherOk(re)
  {
    var sorted := InsertionSort(DefPhase(pat, ix.didx), ScoreLe);
    if |sorted| >= MAX_MATCHES then Success(sorted[..MAX_MATCHES])
    else if !compiles then Failure(BadPattern)
    else ScanFiles(re, ix.files, post, sorted)
  }

  /** The test `xmatch.startByte < offset && offset <= xmatch.endByte` over
      the matches so far, with the early exit of `continue matchloop`. */
  method Overlaps(tm: seq<TextMatch>, name: string, offset: int) returns (covered: bool)
    ensures covered == Covered(tm, name, offset)
  {
    for k := 0 to |tm|
      invariant !Covered(tm[..k], name, offset)
    {
      if tm[k].filename != name {
        continue;
      }
      if tm[k].startByte < offset && offset <= tm[k].endByte {
        return true;
      }
    }
    assert tm[..|tm|] == tm;
    return false;
  }

  /** `Index.search`.  The sort is done on a value rather than in place. */
  method SearchIndex(ix: Index, pat: string, compiles: bool, re: Matcher, post: seq<string>)
    returns (r: Result<seq<TextMatch>, SearchError>)
    requires MatcherOk(re)
    ensures r == SearchResult(ix, pat, compiles, re, post)
  {
    var textmatches := CollectMatches(ix.didx, pat);
    textmatches := InsertionSort(textmatches, ScoreLe);
    if |textmatches| >= MAX_MATCHES {
      return Success(textmatches[..MAX_MATCHES]);
    }
    if !compiles {
      return Failure(BadPattern);
    }
    r := ScanCandidates(re, ix.files, post, textmatches);
  }

  /** The first loop: definition and file-name matches, file by file. */
  method CollectMatches(didx: seq<File>, pat: string) returns (textmatches: seq<TextMatch>)
    ensures textmatches == DefPhase(pat, didx)
  {
    textmatches := [];
    var patlower := ToLower(pat);
    for i := 0 to |didx|
      invariant textmatches == DefPhase(pat, didx[..i])
    {
      var found := MatchesOfFile(didx[i], pat, patlower);
      DefPhaseStep(pat, didx, i);
      textmatches := textmatches + found;
    }
    assert didx[..|didx|] == didx;
  }

  /** One iteration of the definition loop: the file's definition matches,
      then its file-name match. */
  method MatchesOfFile(dfile: File, pat: string, patlower: string) returns (found: seq<TextMatch>)
    requires patlower == ToLower(pat)
    ensures found == FileMatches(pat, dfile)
  {
    found := DefsOfFile(dfile, pat, patlower);
    var fmatch := IndexOf(dfile.nameLower, patlower);
    if fmatch != -1 && fmatch + |pat| == |dfile.name| {
      found := found + [TextMatch(dfile.name, 0, 0, Num(0.0))];
    }
  }

  lemma DefPhaseStep(pat: string, files: seq<File>, i: nat)
    requires i < |files|
    ensures DefPhase(pat, files[..i + 1]) == DefPhase(pat, files[..i]) + FileMatches(pat, files[i])
  {
    assert files[..i + 1][..i] == files[..i];
  }

  /** `fileloop`: the full-text scan of the candidate files, in posting
      order, stopping at the cap. */
  method ScanCandidates(re: Matcher, files: map<string, seq<Byte>>, post: seq<string>, tm: seq<TextMatch>)
    returns (r: Result<seq<TextMatch>, SearchError>)
    requires MatcherOk(re) && |tm| < MAX_MATCHES
    ensures r == ScanFiles(re, files, post, tm)
  {
    var textmatches := tm;
    for i := 0 to |post|
      invariant |textmatches| < MAX_MATCHES
      invariant ScanFiles(re, files, post[i..], textmatches) == ScanFiles(re, files, post, tm)
    {
      var name := post[i];
      if name !in files {
        return Failure(MissingFile);
      }
      var contents := files[name];
      var full: bool;
      textmatches, full := ScanFile(re, contents, name, textmatches);
      assert post[i..][1..] == post[i + 1..];
      if full {
        return Success(textmatches);
      }
    }
    return Success(textmatches);
  }

  /** The inner loop of the first phase: the matches of one file's
      definitions. */
  method DefsOfFile(dfile: File, pat: string, patlower: string) returns (found: seq<TextMatch>)
    requires patlower == ToLower(pat)
    ensures found == DefMatches(pat, dfile.name, dfile.defs)
  {
    found := [];
    for j := 0 to |dfile.defs|
      invariant found == DefMatches(pat, dfile.name, dfile.defs[..j])
    {
      var m := MatchDefinition(dfile.name, dfile.defs[j], pat, patlower);
      DefMatchesStep(pat, dfile.name, dfile.defs, j);
      if m.Some? {
        found := found + [m.value];
      }
    }
    assert dfile.defs[..|dfile.defs|] == dfile.defs;
  }

  lemma DefMatchesStep(pat: string, file: string, defs: seq<Definition>, j: nat)
    requires j < |defs|
    ensures DefMatches(pat, file, defs[..j + 1]) == DefMatches(pat, file, defs[..j]) + OptSeq(DefMatch(pat, file, defs[j]))
  {
    assert defs[..j + 1][..j] == defs[..j];
  }

  /** The body of the inner loop for one definition; `None` where Go
      continues with the next definition. */
  method MatchDefinition(file: string, def: Definition, pat: string, patlower: string) returns (m: Option<TextMatch>)
    requires patlower == ToLower(pat)
    ensures m == DefMatch(pat, file, def)
  {
    var first := IndexOf(def.fullName, patlower);
    var unqnameBegin := LastIndexOf(def.fullName, "::") + 2;
    if unqnameBegin == 1 {
      unqnameBegin := 0;
    }
    DefMatchIsMatchAt(pat, file, def, patlower, first, unqnameBegin);
    m := MatchFrom(file, def, first, |pat|, unqnameBegin);
  }

  lemma DefMatchIsMatchAt(pat: string, file: string, def: Definition, patlower: string, first: int, b: int)
    requires patlower == ToLower(pat) && first == IndexOf(def.fullName, patlower)
    requires b == (if LastIndexOf(def.fullName, "::") == -1 then 0 else LastIndexOf(def.fullName, "::") + 2)
    ensures b == UnqualifiedStart(def.fullName)
    ensures first != -1 ==> 0 <= first && first + |pat| <= |def.fullName|
    ensures DefMatch(pat, file, def) == MatchAt(file, def, first, |pat|, b)
  {
  }

  /** The checks of the inner loop once the first occurrence and the start
      of the unqualified name are known. */
  method MatchFrom(file: string, def: Definition, first: int, patLen: nat, unqnameBegin: nat) returns (m: Option<TextMatch>)
    requires unqnameBegin <= |def.fullName| && (first != -1 ==> 0 <= first && first + patLen <= |def.fullName|)
    ensures m == MatchAt(file, def, first, patLen, unqnameBegin)
  {
    if first == -1 {
      return None;
    }
    var matchEnd := first + patLen;
    if matchEnd < unqnameBegin {
      return None;
    }
    var start := first;
    if start < unqnameBegin {
      start := unqnameBegin;
    }
    var score := Ratio(def.refCount, matchEnd - start, |def.fullName| - unqnameBegin);
    m := Some(TextMatch(file, def.startByte, def.endByte, score));
  }

  /** `matchloop` over one file: `full` tells whether the results reached
      the cap (`break fileloop`). */
  method ScanFile(re: Matcher, contents: seq<Byte>, name: string, tm: seq<TextMatch>)
    returns (textmatches: seq<TextMatch>, full: bool)
    requires MatcherOk(re) && |tm| < MAX_MATCHES
    ensures textmatches == ScanFrom(re, contents, name, tm, 0, true)
    ensures full <==> |textmatches| == MAX_MATCHES
  {
    textmatches := tm;
    var offset := 0;
    var beginText := true;
    while true
      invariant offset <= |contents| && |textmatches| < MAX_MATCHES
      invariant ScanFrom(re, contents, name, textmatches, offset, beginText) == ScanFrom(re, contents, name, tm, 0, true)
      decreases |contents| - offset
    {
      var m := re(contents[offset..], beginText);
      beginText := false;
      if m == -1 {
        break;
      }
      offset := offset + m;
      var covered := Overlaps(textmatches, name, offset);
      if covered {
        continue;
      }
      textmatches := textmatches + [TextMatch(name, offset, offset, Num(0.0))];
      if |textmatches| == MAX_MATCHES {
        return textmatches, true;
      }
    }
    return textmatches, false;
  }

  // ---------------------------------------------------------------------
  // Properties of the search
  // ---------------------------------------------------------------------

  /** The definition and file-name matches, ranked. */
  function Ranked(ix: Index, pat: string): seq<TextMatch> {
    InsertionSort(DefPhase(pat, ix.didx), ScoreLe)
  }

  /** Never more than the cap. */
  lemma SearchCapped(ix: Index, pat: string, compiles: bool, re: Matcher, post: seq<string>)
    requires MatcherOk(re)
    ensures SearchResult(ix, pat, compiles, re, post).Success? ==>
      |SearchResult(ix, pat, compiles, re, post).value| <= MAX_MATCHES
  {
  }

  /** At the cap or above, the first hundred ranked matches are the answer
      and the full-text side is never consulted: the pattern's compiling,
      the matcher and the candidate files make no difference. */
  lemma SearchAtCap(ix: Index, pat: string, c1: bool, re1: Matcher, post1: seq<string>, c2: bool, re2: Matcher, post2: seq<string>)
    requires MatcherOk(re1) && MatcherOk(re2)
    requires |DefPhase(pat, ix.didx)| >= MAX_MATCHES
    ensures SearchResult(ix, pat, c1, re1, post1) == SearchResult(ix, pat, c2, re2, post2)
    ensures SearchResult(ix, pat, c1, re1, post1) == Success(Ranked(ix, pat)[..MAX_MATCHES])
  {
  }

  /** An uncompilable pattern fails the search, dropping the definition
      matches, exactly when these are fewer than the cap. */
  lemma SearchBadPattern(ix: Index, pat: string, compiles: bool, re: Matcher, post: seq<string>)
    requires MatcherOk(re)
    ensures SearchResult(ix, pat, compiles, re, post) == Failure(BadPattern) <==>
      !compiles && |DefPhase(pat, ix.didx)| < MAX_MATCHES
  {
  }

  // ---------------------------------------------------------------------
  // Completeness of the full-text scan
  // ---------------------------------------------------------------------

  /** The offsets the matcher reports in `src` from `offset` on, in order:
      each is the end of a match found from the previous one. */
  ghost function Reported(re: Matcher, src: seq<Byte>, offset: nat, begin: bool): seq<nat>
    requires MatcherOk(re) && offset <= |src|
    decreases |src| - offset
  {
    var m := re(src[offset..], begin);
    if m == -1 then [] else [offset + m] + Reported(re, src, offset + m, false)
  }

  /** The hits the offsets `offs` give in file `name`: one empty span of
      score 0 for each offset that no match of `base` covers. */
  function NewHits(base: seq<TextMatch>, name: string, offs: seq<nat>): seq<TextMatch> {
    if offs == [] then []
    else (if Covered(base, name, offs[0]) then [] else [TextMatch(name, offs[0], offs[0], Num(0.0))])
         + NewHits(base, name, offs[1..])
  }

  /** The hits of every candidate file in turn; a file without source data
      gives none (the scan panics there before it matters). */
  ghost function AllHits(re: Matcher, files: map<string, seq<Byte>>, base: seq<TextMatch>, post: seq<string>): seq<TextMatch>
    requires MatcherOk(re)
  {
    if post == [] then []
    else (if post[0] in files then NewHits(base, post[0], Reported(re, files[post[0]], 0, true)) else [])
         + AllHits(re, files, base, post[1..])
  }

  /** The first `n` elements of `s`, or all of them. */
  function Capped<T>(s: seq<T>, n: nat): seq<T> {
    if |s| <= n then s else s[..n]
  }

  predicate EmptySpans(tm: seq<TextMatch>) {
    forall k :: 0 <= k < |tm| ==> tm[k].startByte == tm[k].endByte
  }

  /** An empty span covers no offset. */
  lemma CoveredEmptySpans(base: seq<TextMatch>, extra: seq<TextMatch>, name: string, offset: int)
    requires EmptySpans(extra)
    ensures Covered(base + extra, name, offset) <==> Covered(base, name, offset)
  {
    if Covered(base + extra, name, offset) {
      var k :| 0 <= k < |base + extra| && (base + extra)[k].filename == name
               && (base + extra)[k].startByte < offset <= (base + extra)[k].endByte;
      assert k < |base| && (base + extra)[k] == base[k];
    }
    if Covered(base, name, offset) {
      var k :| 0 <= k < |base| && base[k].filename == name && base[k].startByte < offset <= base[k].endByte;
      assert (base + extra)[k] == base[k];
    }
  }

  lemma {:induction false} NewHitsEmptySpans(base: seq<TextMatch>, extra: seq<TextMatch>, name: string, offs: seq<nat>)
    requires EmptySpans(extra)
    ensures NewHits(base + extra, name, offs) == NewHits(base, name, offs)
  {
    if offs != [] {
      CoveredEmptySpans(base, extra, name, offs[0]);
      NewHitsEmptySpans(base, extra, name, offs[1..]);
    }
  }

  lemma {:induction false} AllHitsEmptySpans(re: Matcher, files: map<string, seq<Byte>>, base: seq<TextMatch>, extra: seq<TextMatch>, post: seq<string>)
    requires MatcherOk(re) && EmptySpans(extra)
    ensures AllHits(re, files, base + extra, post) == AllHits(re, files, base, post)
  {
    if post != [] {
      if post[0] in files {
        NewHitsEmptySpans(base, extra, post[0], Reported(re, files[post[0]], 0, true));
      }
      AllHitsEmptySpans(re, files, base, extra, post[1..]);
    }
  }

  lemma {:induction false} NewHitsEmpty(base: seq<TextMatch>, name: string, offs: seq<nat>)
    ensures EmptySpans(NewHits(base, name, offs))
  {
    if offs != [] {
      NewHitsEmpty(base, name, offs[1..]);
    }
  }

  lemma CappedShort<T>(x: seq<T>, y: seq<T>, n: nat)
    requires |x| <= n
    ensures x + Capped(y, n - |x|) == Capped(x + y, n)
  {
    if |x + y| > n {
      assert (x + y)[..n] == x + y[..n - |x|];
    }
  }

  lemma CappedLong<T>(x: seq<T>, y: seq<T>, n: nat)
    requires n <= |x|
    ensures Capped(x + y, n) == Capped(x, n)
  {
    assert (x + y)[..n] == x[..n];
  }

  /** One fresh hit `h` ahead of the rest of the scan, which started from
      `acc + [h]`. */
  lemma FreshHitAhead(acc: seq<TextMatch>, h: TextMatch, name: string, rest: seq<nat>, n: nat)
    requires 1 < n && h.startByte == h.endByte
    ensures (acc + [h]) + Capped(NewHits(acc + [h], name, rest), n - 1)
         == acc + Capped([h] + NewHits(acc, name, rest), n)
  {
    var later := NewHits(acc, name, rest);
    NewHitsEmptySpans(acc, [h], name, rest);
    CappedShort([h], later, n);
    assert (acc + [h]) + Capped(later, n - 1) == acc + ([h] + Capped(later, n - 1));
  }

  /** `matchloop` appends exactly the reported offsets that the matches it
      started from do not cover, each as an empty span of score 0, until
      the results reach the cap: none is missed, since the spans it adds
      itself cover nothing. */
  lemma {:induction false} ScanFromComplete(re: Matcher, src: seq<Byte>, name: string, acc: seq<TextMatch>, offset: nat, begin: bool)
    requires MatcherOk(re) && offset <= |src| && |acc| < MAX_MATCHES
    ensures ScanFrom(re, src, name, acc, offset, begin)
      == acc + Capped(NewHits(acc, name, Reported(re, src, offset, begin)), MAX_MATCHES - |acc|)
    decreases |src| - offset
  {
    var m := re(src[offset..], begin);
    if m == -1 {
      assert Reported(re, src, offset, begin) == [];
      assert ScanFrom(re, src, name, acc, offset, begin) == acc;
    } else {
      var off := offset + m;
      var rest := Reported(re, src, off, false);
      assert Reported(re, src, offset, begin) == [off] + rest;
      assert ([off] + rest)[1..] == rest;
      if Covered(acc, name, off) {
        assert NewHits(acc, name, [off] + rest) == NewHits(acc, name, rest);
        assert ScanFrom(re, src, name, acc, offset, begin) == ScanFrom(re, src, name, acc, off, false);
        ScanFromComplete(re, src, name, acc, off, false);
      } else {
        var h := TextMatch(name, off, off, Num(0.0));
        assert NewHits(acc, name, [off] + rest) == [h] + NewHits(acc, name, rest);
        if |acc| + 1 == MAX_MATCHES {
          assert ScanFrom(re, src, name, acc, offset, begin) == acc + [h];
          CappedLong([h], NewHits(acc, name, rest), 1);
        } else {
          assert ScanFrom(re, src, name, acc, offset, begin) == ScanFrom(re, src, name, acc + [h], off, false);
          ScanFromComplete(re, src, name, acc + [h], off, false);
          FreshHitAhead(acc, h, name, rest, MAX_MATCHES - |acc|);
        }
      }
    }
  }

  lemma AllHitsPrefix(re: Matcher, files: map<string, seq<Byte>>, base: seq<TextMatch>, post: seq<string>, i: nat)
    requires MatcherOk(re) && 0 < i <= |post|
    ensures AllHits(re, files, base, post[..i])
      == (if post[0] in files then NewHits(base, post[0], Reported(re, files[post[0]], 0, true)) else [])
         + AllHits(re, files, base, post[1..][..i - 1])
  {
    assert post[..i][0] == post[0];
    assert post[..i][1..] == post[1..][..i - 1];
  }

  /** Once the first file's hits `h0` fill the cap, no later file is reached. */
  lemma NoPanicPastCap(re: Matcher, files: map<string, seq<Byte>>, acc: seq<TextMatch>, post: seq<string>, n: nat)
    requires MatcherOk(re) && post != [] && post[0] in files
    requires |NewHits(acc, post[0], Reported(re, files[post[0]], 0, true))| >= n
    ensures forall i :: 0 <= i < |post| && post[i] !in files ==> |AllHits(re, files, acc, post[..i])| >= n
  {
    forall i | 0 <= i < |post| && post[i] !in files ensures |AllHits(re, files, acc, post[..i])| >= n {
      if i > 0 {
        AllHitsPrefix(re, files, acc, post, i);
      }
    }
  }

  /** Below the cap, the first file's hits `h0` shift the panic point by one
      file and the cap by their number. */
  lemma PanicShift(re: Matcher, files: map<string, seq<Byte>>, acc: seq<TextMatch>, post: seq<string>, n: nat)
    requires MatcherOk(re) && post != [] && post[0] in files
    requires var h0 := NewHits(acc, post[0], Reported(re, files[post[0]], 0, true)); |h0| < n
    ensures var h0 := NewHits(acc, post[0], Reported(re, files[post[0]], 0, true));
      (exists i :: 0 <= i < |post| && post[i] !in files && |AllHits(re, files, acc, post[..i])| < n) <==>
      (exists i :: 0 <= i < |post[1..]| && post[1..][i] !in files && |AllHits(re, files, acc + h0, post[1..][..i])| < n - |h0|)
  {
    var h0 := NewHits(acc, post[0], Reported(re, files[post[0]], 0, true));
    NewHitsEmpty(acc, post[0], Reported(re, files[post[0]], 0, true));
    if exists i :: 0 <= i < |post| && post[i] !in files && |AllHits(re, files, acc, post[..i])| < n {
      var i :| 0 <= i < |post| && post[i] !in files && |AllHits(re, files, acc, post[..i])| < n;
      AllHitsPrefix(re, files, acc, post, i);
      AllHitsEmptySpans(re, files, acc, h0, post[1..][..i - 1]);
      assert post[1..][i - 1] !in files && |AllHits(re, files, acc + h0, post[1..][..i - 1])| < n - |h0|;
    }
    if exists i :: 0 <= i < |post[1..]| && post[1..][i] !in files && |AllHits(re, files, acc + h0, post[1..][..i])| < n - |h0| {
      var i :| 0 <= i < |post[1..]| && post[1..][i] !in files && |AllHits(re, files, acc + h0, post[1..][..i])| < n - |h0|;
      AllHitsPrefix(re, files, acc, post, i + 1);
      AllHitsEmptySpans(re, files, acc, h0, post[1..][..i]);
      assert post[i + 1] !in files && |AllHits(re, files, acc, post[..i + 1])| < n;
    }
  }

  /** The first file's hits `h0` ahead of the rest of the scan, which
      started from `acc + h0`. */
  lemma FileHitsAhead(re: Matcher, files: map<string, seq<Byte>>, acc: seq<TextMatch>, h0: seq<TextMatch>, post: seq<string>, n: nat)
    requires MatcherOk(re) && EmptySpans(h0) && |h0| < n
    ensures (acc + h0) + Capped(AllHits(re, files, acc + h0, post), n - |h0|)
         == acc + Capped(h0 + AllHits(re, files, acc, post), n)
  {
    AllHitsEmptySpans(re, files, acc, h0, post);
    CappedShort(h0, AllHits(re, files, acc, post), n);
  }

  /** `fileloop` appends the hits of the candidate files in order, cut at
      the cap. */
  lemma {:induction false} ScanFilesComplete(re: Matcher, files: map<string, seq<Byte>>, post: seq<string>, acc: seq<TextMatch>)
    requires MatcherOk(re) && |acc| < MAX_MATCHES
    ensures ScanFiles(re, files, post, acc).Success? ==>
      ScanFiles(re, files, post, acc).value == acc + Capped(AllHits(re, files, acc, post), MAX_MATCHES - |acc|)
    decreases |post|
  {
    if post != [] && post[0] in files {
      var n := MAX_MATCHES - |acc|;
      var h0 := NewHits(acc, post[0], Reported(re, files[post[0]], 0, true));
      ScanFromComplete(re, files[post[0]], post[0], acc, 0, true);
      assert AllHits(re, files, acc, post) == h0 + AllHits(re, files, acc, post[1..]);
      if |h0| >= n {
        CappedLong(h0, AllHits(re, files, acc, post[1..]), n);
      } else {
        assert ScanFiles(re, files, post, acc) == ScanFiles(re, files, post[1..], acc + h0);
        NewHitsEmpty(acc, post[0], Reported(re, files[post[0]], 0, true));
        ScanFilesComplete(re, files, post[1..], acc + h0);
        FileHitsAhead(re, files, acc, h0, post[1..], n);
      }
    }
  }

  /** `fileloop` panics exactly when it reaches a file without source data
      before the results reach the cap. */
  lemma {:induction false} ScanFilesPanics(re: Matcher, files: map<string, seq<Byte>>, post: seq<string>, acc: seq<TextMatch>)
    requires MatcherOk(re) && |acc| < MAX_MATCHES
    ensures ScanFiles(re, files, post, acc).Failure? <==>
      exists i :: 0 <= i < |post| && post[i] !in files && |AllHits(re, files, acc, post[..i])| < MAX_MATCHES - |acc|
    decreases |post|
  {
    var n := MAX_MATCHES - |acc|;
    if post == [] {
    } else if post[0] !in files {
      assert post[..0] == [];
      assert post[0] !in files && |AllHits(re, files, acc, post[..0])| < n;
    } else {
      var h0 := NewHits(acc, post[0], Reported(re, files[post[0]], 0, true));
      ScanFromComplete(re, files[post[0]], post[0], acc, 0, true);
      if |h0| >= n {
        NoPanicPastCap(re, files, acc, post, n);
      } else {
        assert ScanFiles(re, files, post, acc) == ScanFiles(re, files, post[1..], acc + h0);
        ScanFilesPanics(re, files, post[1..], acc + h0);
        PanicShift(re, files, acc, post, n);
      }
    }
  }

  /** Below the cap, with a pattern that compiles, the search is the ranked
      matches followed by every full-text hit of the candidate files that
      no ranked match covers, cut at the cap; it panics exactly when a file
      without source data is reached before the cap. */
  lemma SearchComplete(ix: Index, pat: string, compiles: bool, re: Matcher, post: seq<string>)
    requires MatcherOk(re)
    ensures compiles && |DefPhase(pat, ix.didx)| < MAX_MATCHES ==>
      var r, ranked := SearchResult(ix, pat, compiles, re, post), Ranked(ix, pat);
      && (r.Success? ==> r.value == ranked + Capped(AllHits(re, ix.files, ranked, post), MAX_MATCHES - |ranked|))
      && (r.Failure? <==> exists i :: 0 <= i < |post| && post[i] !in ix.files
                                      && |AllHits(re, ix.files, ranked, post[..i])| < MAX_MATCHES - |ranked|)
  {
    if compiles && |DefPhase(pat, ix.didx)| < MAX_MATCHES {
      var ranked := Ranked(ix, pat);
      ScanFilesComplete(re, ix.files, post, ranked);
      ScanFilesPanics(re, ix.files, post, ranked);
    }
  }

  /** A successful search starts with the ranked matches, all of them when
      fewer than the cap: a permutation of the collected matches in
      non-increasing score order; every later entry is a full-text hit in a
      candidate file that no earlier match of that file covers. */
  lemma SearchRanked(ix: Index, pat: string, compiles: bool, re: Matcher, post: seq<string>)
    requires MatcherOk(re)
    requires SearchResult(ix, pat, compiles, re, post).Success?
    ensures var res, ranked := SearchResult(ix, pat, compiles, re, post).value, Ranked(ix, pat);
      var n := if |ranked| < MAX_MATCHES then |ranked| else MAX_MATCHES;
      && multiset(ranked) == multiset(DefPhase(pat, ix.didx))
      && n <= |res| && res[..n] == ranked[..n]
      && (forall i, j :: 0 <= i < j < n ==> ScoreLe(res[i], res[j]))
      && (forall k :: n <= k < |res| ==> res[k].filename in post && FullTextHit(res, k))
  {
    var res, ranked := SearchResult(ix, pat, compiles, re, post).value, Ranked(ix, pat);
    ScoreLeIsOrder();
    InsertionSortSorted(DefPhase(pat, ix.didx), ScoreLe);
    var n := if |ranked| < MAX_MATCHES then |ranked| else MAX_MATCHES;
    forall i, j | 0 <= i < j < n ensures ScoreLe(res[i], res[j]) {
      assert res[i] == ranked[i] && res[j] == ranked[j];
    }
  }
}
