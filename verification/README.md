# Cross-reference indexing in kythe `cs`, modelled in Dafny

The `cs` tools of Kythe turn the fact stream of a compilation into a browsable,
searchable code index. This project models the logic at their core and proves
properties of it:

- **The per-unit pass** (`tu` in `kythe/cs/cmd/index/index.go`). It reads the
  entries of one compilation unit: node kinds, anchor bounds, `named`,
  `ref`, `defines/binding`, `completes`, `extends`/`overrides` and
  `ref/includes` edges. It classifies nodes into blacklists, records anchors
  with their bounds stored as value + 1, and collects raw reference lists.
  At the end it resolves every raw entry against its anchor. The result is a
  `TUInfo` record: located nodes and relationships over an append-only
  string table (`StrTab`), sorted and with adjacent duplicates removed.
- **The corpus pass** (`corpus` and `corpusindex.finish`). It merges the
  unit records, re-deduplicating after every 64th unit and once at the end.
  It then links them: definitions are grouped per node, and references are
  filtered against definition and `completes` locations. Relationships
  queue deferred "append my location here" targets. `completes` entries fold
  a node into a record keyed by location, and every record is emitted at its
  key and at each of its declarations and references. The pass also covers
  the definition index (`makeDefIndex`) and the anchor names of the
  annotated pages (`filteredString`, `makeRefName`).
- **RefPack** (`kythe/cs/refpack/refpack.go`). This is a container of named
  blobs: a little-endian header with a sorted name table and a sentinel
  offset, then the payload. It is found by binary search.
- **The line table** (`MakeSrcData`, `LineNumber` in
  `kythe/cs/cshtml/cshtml.go`).
- **The ranked search** (`Index.search` in `kythe/cs/service/service.go`). It
  finds definition-name matches scored by reference count, and file-name
  matches. It applies the 100-result cap, and full-text matches follow when
  there is room.

Modules follow the program:

| module | contents |
|---|---|
| `Interner` | `StrTab` |
| `Records` | `Loc`, `LocNode`, `Rel`, `TUInfo`, merge and dedup |
| `TuBuilder` | `tuindex` and `tu` |
| `TuStream` | what the per-unit fold means for each part of its state |
| `Resolver` | `corpusindex`, `finish`, `makeDefIndex` and `corpus` |
| `RefNames` | anchor names |
| `RefPack`, `RefReader` | writer and reader |
| `RefRoundTrip` | the writer/reader test as a proof |
| `LineTable` | line starts and line numbers |
| `Search` | ranked search |
| `DefIndex` | the definition index's records |
| `Wrappers`, `Seqs`, `Numbers`, `Sorting` | stand-ins for the Go library pieces used |

State the source changes in place is modelled that way:
- `StrTab`, `TUInfo`, `tuindex` (`TuIndex`), `corpusindex` (`CorpusIndex`),
  the refpack `Writer`, the reader's stream and the `refNumbers` map are
  classes whose methods update their fields.
- `MakeSrcData` fills an array.
- The refpack header is written into an array through the same cursors as
  the source.
- Every loop over mutable state (the read loop, the merge and link loops,
  the refpack writer and reader, the line table and the search loops) is a
  loop with invariants. Each is proved against a specification function
  whose properties are proved as lemmas. Two loops that only compute a
  string are recursive functions instead: the component loop of
  `asLanguageName` (index.go:357-364, `TuBuilder.Accumulated`) and the
  character loop of `filteredString` (index.go:941-945,
  `RefNames.FilteredString`).

Where the specification and the code disagree, the model follows the code:
- **The file-name match of `search`** (`kythe/cs/service/service.go:120`).
  The code takes the *first* occurrence of the lower-cased pattern in the
  lower-cased file name, and requires that occurrence to end at the end of
  the name. That is narrower than "the pattern is a suffix of the file name"
  (`Search.FileMatchFirstOccurrence`).
- **The definition match** (`kythe/cs/service/service.go:104`). The code
  searches the stored `FullName` as it is for the lower-cased pattern. It
  does not lower-case the name. The names the indexer writes are lower case
  already (`asLanguageName` lower-cases every component).

## Model

| member | source | states |
|---|---|---|
| Interner.StrTab.Idx | kythe/cs/cmd/index/index.go:53-68 | fails, changing nothing, exactly when the table was deserialized and is non-empty; otherwise the returned handle names the string; a string interned before gets its old handle and the table is unchanged; a new string gets the old length as handle and is appended |
| Interner.HandlesUnique | kythe/cs/cmd/index/index.go:60-67 | in a live table two handles of the same string are the same handle: the table never holds a string twice |
| Records.NodeOrder | kythe/cs/cmd/index/index.go:136-166 | "not less the other way round" of `byLocNodeAll.Less` is a total, transitive order |
| Records.RelOrder | kythe/cs/cmd/index/index.go:193-209 | the same for `byRelAll.Less` (kind false before true, then source, then destination) |
| Records.NodeLessTies | kythe/cs/cmd/index/index.go:136-166 | two nodes neither of which is less than the other agree on location, name and node; they can differ only in `NoUnref` |
| Records.DedupMayKeepDuplicates | kythe/cs/cmd/index/index.go:171-186 | a sorted, compacted list can still hold one node twice, when a node differing only in `NoUnref` sits between the copies: only "no two adjacent equal" holds |
| Records.DedupXrefList | kythe/cs/cmd/index/index.go:171-186 | the result is sorted by `byLocNodeAll`, has no two adjacent equal entries, holds exactly the input's elements and is no longer than the input |
| Records.DedupRelList | kythe/cs/cmd/index/index.go:214-229 | the same for relationships under `byRelAll` |
| Records.TUInfo.ReinternNode | kythe/cs/cmd/index/index.go:107-109 | the re-interned node has the same path, name and node strings in the target table as the original had in the source table, and the same other fields; the table only grows |
| Records.TUInfo.ReinternRel | kythe/cs/cmd/index/index.go:118-119 | the same for a relationship's source and destination |
| Records.TUInfo.MergeXrefList | kythe/cs/cmd/index/index.go:102-111 | the list grows by exactly the source's length, its old prefix is unchanged, and each appended node reads in the target table as the source node read in the source table |
| Records.TUInfo.MergeRelList | kythe/cs/cmd/index/index.go:113-121 | the same for a relationship list |
| Records.TUInfo.Merge | kythe/cs/cmd/index/index.go:123-129 | each of the five lists is merged as above from the other record, against the other record's table |
| Records.MergedNodesContent | kythe/cs/cmd/index/index.go:102-111 | after a merge, the nodes the list denotes are those it denoted before together with those the source denoted |
| Records.MergedRelsContent | kythe/cs/cmd/index/index.go:113-121 | the same for relationships |
| Records.TUInfo.Dedup | kythe/cs/cmd/index/index.go:231-237 | each of the five lists is replaced by its sorted, compacted form and the table is untouched |
| Records.DedupedNodesContent | kythe/cs/cmd/index/index.go:171-186 | deduplication keeps the set of nodes a list denotes |
| Records.DedupedRelsContent | kythe/cs/cmd/index/index.go:214-229 | deduplication keeps the set of relationships a list denotes |
| Records.ResolveNodeStable | kythe/cs/cmd/index/index.go:64-66 | a handle keeps its string when the table is appended to |
| Records.ResolveRelStable | kythe/cs/cmd/index/index.go:64-66 | a relationship keeps its source and destination strings when the table is appended to |
| Sorting.InsertionSortSorted | kythe/cs/cmd/index/index.go:173 | the sort stand-in orders its input under any total, transitive order |
| Sorting.CompactAdjacent | kythe/cs/cmd/index/index.go:174-185 | the ahead/behind loop computes the compaction of its input |
| Sorting.CompactedProperties | kythe/cs/cmd/index/index.go:174-185 | compaction is no longer than its input, keeps its last element, keeps exactly its elements and leaves no two adjacent equal |
| Sorting.CompactedSorted | kythe/cs/cmd/index/index.go:174-185 | compacting a sorted list leaves it sorted |
| Sorting.CompactedIdentity | kythe/cs/cmd/index/index.go:174-185 | a list with no two adjacent equal is left as it is |
| Sorting.DedupedProperties | kythe/cs/cmd/index/index.go:171-186 | sort then compact gives a sorted list with no adjacent equals, the same elements and no more entries |
| Sorting.DedupedIdempotent | kythe/cs/cmd/index/index.go:1327-1332 | deduplicating a list that is already deduplicated changes nothing |
| TuBuilder.VnameStrSplit | kythe/cs/cmd/index/index.go:337-339 | for names without NUL bytes, splitting `vnameStr` at NUL gives back signature, corpus, root, path and language |
| TuBuilder.VnameStrInjective | kythe/cs/cmd/index/index.go:337-339 | NUL-free names with the same `vnameStr` are the same name |
| TuBuilder.ManglePath | kythe/cs/cmd/index/index.go:330-335 | the result is the path, or the path with its single leading slash removed; a path starting with '/' loses exactly one character |
| TuBuilder.ManglePathExamples | kythe/cs/cmd/index/index.go:330-335 | "/a/b" and "a/b" give "a/b", "//a" gives "/a", "" gives "" |
| TuBuilder.LastHashFound | kythe/cs/cmd/index/index.go:351 | when the name holds a '#', the slice bound `strings.LastIndex(qname, "#")` is a valid index |
| TuBuilder.AccumulatedSpec | kythe/cs/cmd/index/index.go:355-368 | the component loop succeeds exactly when no component is empty or starts with a digit, and then yields "::" followed by the lower-cased components in reverse order joined by "::" |
| TuBuilder.AsLanguageNameSpec | kythe/cs/cmd/index/index.go:350-369 | the suffix from the last '#' is dropped; the result is "" when another '#' remains or a component is empty or starts with a digit, and otherwise the lower-cased components reversed and joined with "::" |
| TuBuilder.AsLanguageNameEnd | kythe/cs/cmd/index/index.go:350-369 | a non-empty language name never ends in ':' |
| TuBuilder.AsLanguageNameQualified | kythe/cs/cmd/index/index.go:350-369 | "c:b:a#n" becomes "a::b::c" |
| TuBuilder.AsLanguageNameLowered | kythe/cs/cmd/index/index.go:350-369 | "Foo#n" becomes "foo" |
| TuBuilder.AsLanguageNameOperator | kythe/cs/cmd/index/index.go:352-354 | "x#y#n", which keeps a '#' after the cut, gives "" |
| TuBuilder.AsLanguageNameDigit | kythe/cs/cmd/index/index.go:359-361 | "1x:a#n", with a component starting with a digit, gives "" |
| TuBuilder.AnchorEncoding | kythe/cs/cmd/index/index.go:442-449 | a bound stored as int32(v + 1) reads back as int32(v), and the stored 0 meaning "unset" arises exactly from v = -1 |
| TuBuilder.AnchorOutOfRange | kythe/cs/cmd/index/index.go:397-410 | a bound past the int64 range is clamped by `Atoi`, and `+ 1` then wraps in int64; the stored int32 is the same as without the int64 wrap: 0 above the range and 1 below it |
| TuBuilder.AnchorRoundTrip | kythe/cs/cmd/index/index.go:397-410 | after an anchor's start and end facts, its span is the two parsed values as int32, or unset when either is -1 |
| TuStream.DefIndexBlacklistOfStream | kythe/cs/cmd/index/index.go:381-395 | after a stream a node is on the definition-index blacklist exactly when some entry declares it an `absvar` or is a `param` edge into it |
| TuStream.UnrefBlacklistOfStream | kythe/cs/cmd/index/index.go:384-393 | a node is on the unreferenced blacklist exactly when some entry declares it a `variable` and no later entry gives it the subkind `field`; a `field` fact before the `variable` fact does not cancel it |
| TuStream.NamesOfStream | kythe/cs/cmd/index/index.go:425-427 | a node has a name exactly when some `named` edge leaves it, and the name is the language name of the last such edge |
| TuStream.IncsOfStream | kythe/cs/cmd/index/index.go:428-430 | the raw includes are exactly the stream's `ref/includes` edges, each as (mangled source path, source node, mangled target path), whatever the path |
| TuStream.DefsOfStream | kythe/cs/cmd/index/index.go:341-348 | `addLocNode` on `defines/binding` edges (index.go:434-436): the raw definitions are exactly the binding edges whose target is not `#builtin` and whose mangled path is non-empty, each as (path, source node, target) |
| TuStream.CompsOfStream | kythe/cs/cmd/index/index.go:437-439 | the same for `completes` and `completes/uniquely` edges and the raw completions |
| TuStream.PreparedOfStream | kythe/cs/cmd/index/index.go:451-473 | `prepareXrefs` over the recorded edges of a stream yields exactly those edges that survive the blacklist and anchor checks, rendered |
| TuStream.UnitDefs | kythe/cs/cmd/index/index.go:475-486 | a unit's located definitions are exactly its recorded binding edges that survive the checks, rendered with their names |
| TuStream.UnitComps | kythe/cs/cmd/index/index.go:475-486 | the same for completions |
| TuStream.RenderedNoNameOfStream | kythe/cs/cmd/index/index.go:463-468 | a definition or completion has no name when an entry marks its node `absvar` or passes it as a `param`, or when no `named` edge leaves it |
| TuStream.RenderedNameOfStream | kythe/cs/cmd/index/index.go:463-468 | when no entry marks its node `absvar` or `param`, a definition's or completion's name is the language name of the last `named` edge from its node |
| TuStream.RenderedUnrefOfStream | kythe/cs/cmd/index/index.go:470 | a definition or completion carries the unreferenced marker exactly when its node was declared a `variable` and not later given the subkind `field` |
| TuBuilder.BlacklistOfStream | kythe/cs/cmd/index/index.go:376-380 | after a stream a node is blacklisted exactly when some entry declares its kind `tapp` or `lookup` |
| TuBuilder.RefsOfStream | kythe/cs/cmd/index/index.go:429-431 | the raw references of a stream are exactly its `ref` and `ref/expands` edges with a non-builtin target and a non-empty path |
| TuBuilder.PreparedMembers | kythe/cs/cmd/index/index.go:451-473 | `prepareXrefs` yields exactly the raw entries whose target is not blacklisted and whose anchor has both bounds, each located at the anchor's bounds |
| TuBuilder.PreparedNoName | kythe/cs/cmd/index/index.go:463-467 | without `needname` every prepared node has the empty name |
| TuBuilder.UnitRefs | kythe/cs/cmd/index/index.go:429-473 | a unit's references are exactly the recorded `ref` edges of the stream that survive the blacklist and anchor checks, as located, unnamed nodes |
| TuBuilder.TuIndex.Classify | kythe/cs/cmd/index/index.go:376-410 | the node-kind, subkind, `param` and anchor facts update the three blacklists and the anchor table, and nothing else |
| TuBuilder.TuIndex.AppendRel | kythe/cs/cmd/index/index.go:411-417 | appends one relationship whose handles name its source and destination; the other lists are unchanged |
| TuBuilder.TuIndex.RecordRels | kythe/cs/cmd/index/index.go:411-424 | an `extends` edge appends a derives and an `overrides` edge an overrides relationship from source to target |
| TuBuilder.TuIndex.RecordEdge | kythe/cs/cmd/index/index.go:425-439 | fails exactly on a `named` edge whose target has no '#'; records the language name of `named` edges and the raw includes, references, definitions and completions as one step of their folds, whose meaning over a stream TuStream.NamesOfStream, IncsOfStream, DefsOfStream, CompsOfStream and TuBuilder.RefsOfStream state |
| TuBuilder.TuIndex.ProcessEntry | kythe/cs/cmd/index/index.go:371-440 | fails exactly where `asLanguageName` would panic; otherwise classification, anchors, names, raw lists and relationships each advance by one step of their fold over the stream; over a whole stream the three blacklists, the names and the raw lists mean what TuBuilder.BlacklistOfStream, TuStream.DefIndexBlacklistOfStream, UnrefBlacklistOfStream, NamesOfStream, IncsOfStream, DefsOfStream, CompsOfStream and TuBuilder.RefsOfStream state |
| TuBuilder.TuIndex.MakeLoc | kythe/cs/cmd/index/index.go:442-449 | no location when either anchor bound is unset; otherwise the interned path and the stored bounds minus one |
| TuBuilder.TuIndex.PrepareOne | kythe/cs/cmd/index/index.go:453-471 | drops a blacklisted or unanchored entry; otherwise the node reads as the anchor's span, the language name when wanted and not an `absvar`/`param` node, the node string and the variable marker |
| TuBuilder.TuIndex.PrepareXrefs | kythe/cs/cmd/index/index.go:451-473 | the nodes read, in order, as the kept raw entries rendered as above |
| TuBuilder.TuIndex.PrepareInc | kythe/cs/cmd/index/index.go:476-482 | an include is kept exactly when its anchor is set, with the empty name, its target path and `NoUnref` set |
| TuBuilder.TuIndex.PrepareIncs | kythe/cs/cmd/index/index.go:476-482 | the includes read, in order, as the kept raw includes |
| TuBuilder.TuIndex.Finish | kythe/cs/cmd/index/index.go:475-486 | the unit's includes, references, definitions (named) and completions (named) read as the prepared raw lists; relationships are untouched |
| TuBuilder.RelsResolveToStep | kythe/cs/cmd/index/index.go:411-424 | relationships appended over a grown table extend what the list denotes by exactly the added relationships |
| TuBuilder.DedupedSummarizes | kythe/cs/cmd/index/index.go:517 | deduplicating the finished lists keeps what each denotes and leaves each sorted without adjacent equals |
| TuBuilder.Consume | kythe/cs/cmd/index/index.go:496-504 | the read loop succeeds exactly when no entry makes `processEntry` panic, and its state is then the fold of the whole stream |
| TuBuilder.Tu | kythe/cs/cmd/index/index.go:488-528 | fails exactly when some entry panics; otherwise the record's lists denote exactly the stream's prepared includes, references, definitions, completions and relationships, each sorted with no adjacent equals |
| Resolver.XrefsFor | kythe/cs/cmd/index/index.go:628-636 | afterwards the node has an xreflist, the key set grows by that node only, and no cell is touched |
| Resolver.DefsGrouped | kythe/cs/cmd/index/index.go:662-669 | after the definitions loop a node has an xreflist exactly when it has a definition; the list holds its definition locations in order, the name of its first definition, the unreferenced marker exactly when one of them has it, and nothing else |
| Resolver.DefStepGrouped | kythe/cs/cmd/index/index.go:662-669 | one definition keeps that grouping, extended by itself |
| Resolver.GroupDefs | kythe/cs/cmd/index/index.go:656-670 | returns the grouped definitions and the set of every definition and completion location |
| Resolver.RefsFiltered | kythe/cs/cmd/index/index.go:672-681 | the references loop changes no key, order or cell; each xreflist gains exactly its kept references |
| Resolver.KeptRefsMembers | kythe/cs/cmd/index/index.go:672-681 | a location is kept for a node exactly when it is no definition or completion location and some reference of that node has it |
| Resolver.FilterRefs | kythe/cs/cmd/index/index.go:672-681 | the loop computes the references fold |
| Resolver.WithOverrides | kythe/cs/cmd/index/index.go:696-698 | afterwards the node has an `overrides` cell and no key changes |
| Resolver.WithOverriders | kythe/cs/cmd/index/index.go:700-702 | afterwards the node has an `overriders` cell and no key changes |
| Resolver.OverridesQueued | kythe/cs/cmd/index/index.go:695-703 | an overrides relationship gives the source an `overrides` and the destination an `overriders` cell (reusing existing ones) and queues each on the other's `toUpdate` |
| Resolver.DerivesAsWritten | kythe/cs/cmd/index/index.go:705-708 | the derives branch tests `overriders` but allocates `derivers`: with no `overriders` a fresh `derivers` cell replaces any earlier one and is queued; otherwise the destination's current `derivers`, possibly nil, is queued |
| Resolver.RelsFoldShape | kythe/cs/cmd/index/index.go:684-711 | the relationships loop changes no key, order, name, definition or reference; cells only grow and pointers stay within them |
| Resolver.RegisterRels | kythe/cs/cmd/index/index.go:684-711 | the loop computes the relationships fold |
| Resolver.QuirkQueuesNil | kythe/cs/cmd/index/index.go:705-708 | when a node both is overridden and is derived from, the deriving node queues a nil pointer |
| Resolver.DerivesQuirkPanics | kythe/cs/cmd/index/index.go:705-788 | and the later pass that appends through that queue fails |
| Resolver.FlushFails | kythe/cs/cmd/index/index.go:741-743 | appending through the queue fails exactly when some queued pointer is nil |
| Resolver.FlushAppends | kythe/cs/cmd/index/index.go:741-743 | otherwise each cell gains the location once for every time it is queued |
| Resolver.FlushUpdates | kythe/cs/cmd/index/index.go:741-743 | the loop computes that flush, and fails with it |
| Resolver.MergeCompShape | kythe/cs/cmd/index/index.go:723-748 | `mergeComp` changes no xreflist, key order or cell count and leaves a record at its location |
| Resolver.MergeInto | kythe/cs/cmd/index/index.go:723-748 | computes `mergeComp`, failing where its flush fails |
| Resolver.CompsFoldConsumes | kythe/cs/cmd/index/index.go:768-775 | after the completions loop the xreflists are exactly those of nodes without a completes entry |
| Resolver.LaterCompSkipped | kythe/cs/cmd/index/index.go:768-775 | a later completes entry for a node already consumed changes nothing |
| Resolver.CompsFoldAppend | kythe/cs/cmd/index/index.go:768-775 | the completions loop over two lists is the loop over the first, then over the second |
| Resolver.FoldComps | kythe/cs/cmd/index/index.go:768-775 | the loop computes the completions fold |
| Resolver.ConsumedSkipped | kythe/cs/cmd/index/index.go:781-788 | the leftover pass skips a node consumed by a completes entry |
| Resolver.LeftoverFoldShape | kythe/cs/cmd/index/index.go:781-788 | the leftover pass changes no xreflist, order or cell count |
| Resolver.FoldLeftovers | kythe/cs/cmd/index/index.go:781-788 | the loop computes the leftover fold (each remaining node keyed by its first definition) |
| Resolver.GatherFails | kythe/cs/cmd/index/index.go:797-806 | collecting a record's derivers, overrides and overriders fails exactly when some pointer is nil |
| Resolver.GatherCells | kythe/cs/cmd/index/index.go:797-806 | the loop computes that collection |
| Resolver.EntityOf | kythe/cs/cmd/index/index.go:789-806 | builds the record's `xrefinfo`, failing where the collection fails |
| Resolver.RecordPlacementsShare | kythe/cs/cmd/index/index.go:808-813 | a record yields one span at its key, then one at every declaration, then one at every reference, all sharing one `xrefinfo` |
| Resolver.PlaceStep | kythe/cs/cmd/index/index.go:587-595 | placing a span adds its file when new, appends the span to that file only and keeps the path list's prefix |
| Resolver.PlaceAllRoutes | kythe/cs/cmd/index/index.go:808-813 | after placing a list of spans each file holds its earlier spans followed by exactly the spans addressed to it |
| Resolver.CorpusIndex.SrcinfoFor | kythe/cs/cmd/index/index.go:587-595 | a known file is left alone; a new file gets an empty span list and is appended to the path list |
| Resolver.CorpusIndex.AddXref | kythe/cs/cmd/index/index.go:808-813 | the per-file spans change exactly as placing the span says |
| Resolver.CorpusIndex.AddInclude | kythe/cs/cmd/index/index.go:613-616 | an include becomes a span at its location whose entity is the included file |
| Resolver.CorpusIndex.AddIncludes | kythe/cs/cmd/index/index.go:613-617 | the includes loop computes the includes fold |
| Resolver.CorpusIndex.PlaceRecord | kythe/cs/cmd/index/index.go:808-813 | places exactly a record's spans |
| Resolver.CorpusIndex.AddEntity | kythe/cs/cmd/index/index.go:789-813 | adds the entity and places its spans, all pointing at it |
| Resolver.CorpusIndex.EmitRecord | kythe/cs/cmd/index/index.go:787-814 | emits one record, failing exactly where its collection fails |
| Resolver.CorpusIndex.EmitRecords | kythe/cs/cmd/index/index.go:787-814 | the emit loop computes the emit fold over the records in key order |
| Resolver.CorpusIndex.Finish | kythe/cs/cmd/index/index.go:612-815 | fails exactly when the resolution fails (a nil pointer is dereferenced); otherwise the per-file spans and entities are the resolution of the merged record, and the consumed lists are cleared |
| Resolver.FileDefsMembers | kythe/cs/cmd/index/index.go:1200-1204 | a file lists a definition exactly when one of its spans sits at its own named entity's key, as (name, reference count, start, end) |
| Resolver.DefIndexOf | kythe/cs/cmd/index/index.go:1194-1208 | the definition index has one file entry per source path, in the order of the path list it is given |
| Resolver.DefsOfFile | kythe/cs/cmd/index/index.go:1199-1205 | the loop computes a file's definitions |
| Resolver.CorpusIndex.MakeDefIndex | kythe/cs/cmd/index/index.go:1194-1208 | returns the definition index of the current spans and entities, its files in the order of the path list |
| Resolver.MergeUnit | kythe/cs/cmd/index/index.go:1326 | merging a unit adds exactly its nodes and relationships to what the record denotes |
| Resolver.UnitsStep | kythe/cs/cmd/index/index.go:1326 | the content of units plus one more is the content so far together with that unit's |
| Resolver.DedupUnits | kythe/cs/cmd/index/index.go:1327-1332 | a batch dedup keeps what the record denotes and leaves every list sorted with no adjacent equals |
| Resolver.Assemble | kythe/cs/cmd/index/index.go:1311-1333 | merging with a dedup after every 64th unit and once at the end yields a record denoting exactly the union of the units' contents, each list sorted with no adjacent equals |
| Resolver.Corpus | kythe/cs/cmd/index/index.go:1301-1336 | the merged record denotes the units' union; finishing succeeds exactly when its resolution does, and the index is then that resolution |
| RefNames.FilteredString | kythe/cs/cmd/index/index.go:939-947 | the result is no longer than the input and holds only `[0-9A-Za-z_]` |
| RefNames.FilteredConcat | kythe/cs/cmd/index/index.go:939-947 | filtering a concatenation is the concatenation of the filters |
| RefNames.FilteredByte | kythe/cs/cmd/index/index.go:942-944 | one byte is kept, as the same character, exactly when it is in `[0-9A-Za-z_]` |
| RefNames.FilteredIdempotent | kythe/cs/cmd/index/index.go:939-947 | text that is all slug bytes comes back unchanged |
| RefNames.SplitRefName | kythe/cs/cmd/index/index.go:949-957 | splitting a name at '-' gives back the slug, and the number when one was appended |
| RefNames.RefNameInjective | kythe/cs/cmd/index/index.go:949-957 | different slugs or different use counts give different names |
| RefNames.SlugNoDash | kythe/cs/cmd/index/index.go:950 | a slug from a prefix other than '-' holds no '-' |
| RefNames.NamesDistinct | kythe/cs/cmd/index/index.go:949-957 | all names handed out on one page differ |
| RefNames.RefNumbers.MakeRefName | kythe/cs/cmd/index/index.go:949-957 | the name is prefix plus filtered identifier for its first use and gets "-n" for the n-th later use; only that slug's counter goes up |
| Numbers.Int32 | kythe/cs/cmd/index/index.go:401 | the int32 conversion: in range, congruent modulo 2^32, identity on int32 values |
| Numbers.Uint32 | kythe/cs/refpack/refpack.go:39 | the uint32 conversion: in range, congruent modulo 2^32, identity on uint32 values |
| Numbers.ItoaInjective | kythe/cs/cmd/index/index.go:955 | different numbers have different decimal forms |
| Numbers.AtoiItoa | kythe/cs/cmd/index/index.go:399 | parsing the decimal form of an int64 value gives the value back |
| Numbers.AtoiClamps | kythe/cs/cmd/index/index.go:399 | `strconv.Atoi` gives an int64: the value read when it fits, the largest int64 above the range and the smallest below it |
| Numbers.ScanUintSpec | kythe/cs/cmd/index/index.go:399 | the digit loop of `strconv.ParseUint`, resumed after a prefix of digits that fits: a range error exactly when some longer leading run of digits passes the largest uint64, a value exactly when the whole text is digits that fit, and that value is the digits' decimal value |
| Numbers.ParseUintSpec | kythe/cs/cmd/index/index.go:399 | `strconv.ParseUint` on the text after the sign: a range error exactly when some non-empty leading run of digits already passes the largest uint64, whatever follows; a value exactly when the text is a non-empty run of digits that fits, and then it is their decimal value; otherwise a syntax error |
| Numbers.AtoiRangeWins | kythe/cs/cmd/index/index.go:399-401 | a leading run of digits that passes the largest uint64 makes `Atoi` return the largest int64 whatever text follows, not the 0 of a syntax error |
| Numbers.AtoiOverflowThenJunk | kythe/cs/cmd/index/index.go:399-401 | "99999999999999999999x" reads as the largest uint64 and `Atoi` returns the largest int64, so the anchor bound becomes int32(MaxInt64 + 1) = 0 |
| Numbers.Int64 | kythe/cs/cmd/index/index.go:401 | the int64 wrap of Go's `+`: in range and congruent modulo 2^64 |
| Numbers.Int32OfInt64 | kythe/cs/cmd/index/index.go:401 | truncating to int32 after an int64 wrap is the same as truncating directly |
| Seqs.IndexOf | kythe/cs/service/service.go:104 | the first occurrence, or -1 exactly when there is none |
| Seqs.LastIndexOf | kythe/cs/cmd/index/index.go:351 | the last occurrence, or -1 exactly when there is none |
| Seqs.JoinSplit | kythe/cs/cmd/index/index.go:355 | joining the parts of a split with the separator gives the text back, and no part holds the separator |
| Seqs.SplitJoin | kythe/cs/cmd/index/index.go:355 | splitting a join of separator-free parts gives the parts back |
| Seqs.ToLower | kythe/cs/service/service.go:100 | same length, each character lower-cased |
| RefPack.ReadLE32 | kythe/cs/refpack/refpack.go:68-69 | a little-endian u32 reads back as the value written |
| RefPack.Compare | kythe/cs/refpack/refpack.go:130 | `bytes.Compare`: -1, 0 or 1, and 0 exactly for equal byte strings |
| RefPack.CompareFlip | kythe/cs/refpack/refpack.go:130 | swapping the arguments negates the comparison |
| RefPack.CompareTrans | kythe/cs/refpack/refpack.go:130 | the comparison is transitive, strictly when either step is strict |
| RefPack.KeyLeIsOrder | kythe/cs/refpack/refpack.go:49-51 | ordering keys by name is total and transitive |
| RefPack.TableAt | kythe/cs/refpack/refpack.go:76-82 | triple i is the prefix sum of the earlier names' lengths, then key i's start and end |
| RefPack.LaidSentinel | kythe/cs/refpack/refpack.go:87 | the sentinel after the last triple is the total length of the names |
| RefPack.NamesAt | kythe/cs/refpack/refpack.go:83-85 | name i sits in the names area at that prefix sum |
| RefPack.HeaderWellFormed | kythe/cs/refpack/refpack.go:62-87 | the header of sorted keys that fits in 32 bits is well formed: offsets grow up to the sentinel, names are sorted, and entry i reads back key i's name, start and end |
| RefPack.PutUint32 | kythe/cs/refpack/refpack.go:68 | writes the value's four little-endian bytes at the position and nothing else |
| RefPack.CopyInto | kythe/cs/refpack/refpack.go:83 | writes the bytes at the position and nothing else |
| RefPack.PutEntry | kythe/cs/refpack/refpack.go:77-85 | writes one triple at the table cursor and one name at the names cursor, leaving the count header alone |
| RefPack.PutEntries | kythe/cs/refpack/refpack.go:76-86 | the loop fills the whole triple table and names area |
| RefPack.PutHead | kythe/cs/refpack/refpack.go:68-69 | the first eight bytes are the key count and total name length |
| RefPack.PutSentinel | kythe/cs/refpack/refpack.go:87 | the sentinel completes the buffer: it is the counts followed by the header of the keys |
| RefPack.Encode | kythe/cs/refpack/refpack.go:62-88 | the buffer is the key count, the total name length and the header (triples, sentinel, names) |
| RefPack.ClosedKeys | kythe/cs/refpack/refpack.go:57-59 | closing the keys keeps every name and start, leaves all keys but the last unchanged and ends the last at the payload length |
| RefPack.Writer.Write | kythe/cs/refpack/refpack_test.go:38 | appends the data to the payload and leaves the keys alone |
| RefPack.Writer.NewName | kythe/cs/refpack/refpack.go:37-42 | closes the previous key at the payload length and opens a key at it; earlier keys and the payload are unchanged |
| RefPack.Writer.WriteTo | kythe/cs/refpack/refpack.go:56-91 | closes the last key, sorts the keys by name and writes the counts, the header and the payload unchanged |
| RefReader.ReadAt | kythe/cs/refpack/refpack.go:101 | a read returns what remains from the position, at most as many bytes as asked, nothing at the end |
| RefReader.ByteStream.Read | kythe/cs/refpack/refpack_test.go:57 | reads from the current position, reports the end, and advances by what it read |
| RefReader.ByteStream.Seek | kythe/cs/refpack/refpack.go:141 | moves to the given offset |
| RefReader.OpenSucceeds | kythe/cs/refpack/refpack.go:99-119 | opening succeeds exactly when more than eight bytes remain and the header length they announce follows them |
| RefReader.OpenImage | kythe/cs/refpack/refpack.go:99-119 | opening what `WriteTo` wrote gives back the key count and the header |
| RefReader.NewReader | kythe/cs/refpack/refpack.go:99-119 | reports the end-of-file or short-read error of the failing read; otherwise the reader holds the key count and the header, and the stream is past them |
| RefReader.ProbeWellFormed | kythe/cs/refpack/refpack.go:127-135 | on a well-formed header no probe panics, each compares the name with name i, and a hit reads key i's start and end |
| RefReader.WellFormedSorted | kythe/cs/refpack/refpack.go:126 | the names of a well-formed header are sorted |
| RefReader.Search | kythe/cs/refpack/refpack.go:126-137 | fails only where a probe panics; on a well-formed header it finds a key exactly when some name equals the sought one, and then the first such key (no earlier key has that name) with its start and end |
| RefReader.Reader.SeekToName | kythe/cs/refpack/refpack.go:121-143 | -1 without moving when the name is absent; otherwise the length of the first blob with that name, with the stream at 8 + header length + that blob's start; fails only on a malformed header |
| RefRoundTrip.WriteAll | kythe/cs/refpack/refpack_test.go:36-39 | naming then writing each blob leaves the concatenated blobs as payload and one key per blob spanning it |
| RefRoundTrip.NamesLenSort | kythe/cs/refpack/refpack.go:62-65 | sorting the keys keeps the total name length |
| RefRoundTrip.Located | kythe/cs/refpack/refpack.go:37-42 | with distinct names, the key of blob j starts at the total length of the earlier blobs and spans exactly blob j |
| RefRoundTrip.WriteAndOpen | kythe/cs/refpack/refpack_test.go:41-46 | reopening the written container gives a well-formed header listing the written keys, with the stream at the payload |
| RefRoundTrip.ReadBack | kythe/cs/refpack/refpack_test.go:48-61 | with distinct names, seeking a written name and reading its length gives back its blob |
| RefRoundTrip.Miss | kythe/cs/refpack/refpack_test.go:63-71 | seeking a name that was not written gives -1 |
| LineTable.MakeSrcData | kythe/cs/cshtml/cshtml.go:75-97 | the two loops build the line table: [0] for an empty source, else 0 followed by the offset after each newline before the last byte |
| LineTable.StartsAfterNewline | kythe/cs/cshtml/cshtml.go:89-94 | every recorded start follows a newline and follows exactly as many newlines as its rank |
| LineTable.StartsIncreasing | kythe/cs/cshtml/cshtml.go:89-94 | the recorded starts strictly increase |
| LineTable.StartsComplete | kythe/cs/cshtml/cshtml.go:89-94 | every newline in range has its start recorded |
| LineTable.TableFacts | kythe/cs/cshtml/cshtml.go:80-96 | for a non-empty source the table has one entry more than the newlines before the last byte, starts at 0, strictly increases, stays below the length, and entry k follows the k-th newline |
| LineTable.TableComplete | kythe/cs/cshtml/cshtml.go:88-94 | each newline before the last byte starts a line of the table |
| LineTable.LineNumber | kythe/cs/cshtml/cshtml.go:101-114 | fails (Go panics) exactly on an empty table; otherwise returns a line in [1, entries] whose start is at or below the offset and whose successor's is above it, which on a sorted table is one past the last entry at or below the offset |
| LineTable.BoundaryUnique | kythe/cs/cshtml/cshtml.go:101-114 | on a sorted table exactly one line satisfies that |
| LineTable.LastMono | kythe/cs/cshtml/cshtml.go:101-114 | the line number does not decrease as the offset grows |
| LineTable.LineOfOffset | kythe/cs/cshtml/cshtml.go:101-114 | the line of an offset in the source is one plus the newlines before it |
| LineTable.LineOfStarts | kythe/cs/cshtml/cshtml.go:101-114 | for any table satisfying the line-start facts, the entries at or below an offset are exactly one more than the newlines before it |
| LineTable.FirstSourceNewlines | kythe/cs/cshtml/cshtml_test.go:33-34 | newline counts of "line 1\nline 2\n" at offsets 0, 6, 7 and 13 |
| LineTable.TestFirstSource | kythe/cs/cshtml/cshtml_test.go:32-35 | offsets 0 and 6 are on line 1, offsets 7 and 13 on line 2 |
| Search.UnqualifiedStart | kythe/cs/service/service.go:106-109 | 0 when the name holds no "::", otherwise the index just past the last "::" |
| Search.DefMatchSpec | kythe/cs/service/service.go:103-117 | a definition matches exactly when the lower-cased pattern occurs and its first occurrence does not end before the unqualified name; the match has the file and the definition's span, a NaN score exactly when the unqualified name is empty and otherwise a score between 0 and the reference count |
| Search.MatchAtSpec | kythe/cs/service/service.go:105-117 | the same for a given first occurrence and boundary |
| Search.RatioBounds | kythe/cs/service/service.go:116 | the score of a clamped match over a non-empty unqualified name lies between 0 and the reference count |
| Search.DefMatchIsMatchAt | kythe/cs/service/service.go:104-109 | the boundary computed as `LastIndex + 2`, with 1 turned into 0, is the unqualified-name start |
| Search.FileMatch | kythe/cs/service/service.go:120-122 | a file matches exactly when the first occurrence of the lower-cased pattern in the lower-cased name ends at the name's length, with an empty span and score 0 |
| Search.FileMatchFirstOccurrence | kythe/cs/service/service.go:120 | a pattern that ends the file name but also occurs earlier gives no file match |
| Search.FileMatchesMembers | kythe/cs/service/service.go:103-122 | a file contributes exactly its matching definitions and its file-name match |
| Search.DefPhaseMembers | kythe/cs/service/service.go:102-123 | the first phase finds exactly the definition and file-name matches of every file |
| Search.ScoreLeIsOrder | kythe/cs/service/service.go:89-91 | the ranking order is total and transitive |
| Search.ScoreLeIsByScore | kythe/cs/service/service.go:89-91 | on numeric scores it is `byScore`: a may precede b exactly when b does not score more |
| Search.ScanFrom | kythe/cs/service/service.go:146-168 | scanning one file keeps the earlier matches, adds only full-text hits of that file, and never passes the cap |
| Search.ScanFiles | kythe/cs/service/service.go:138-169 | scanning the candidates adds only uncovered full-text hits of candidate files, never passes the cap, and fails only on a candidate without source data |
| Search.ScanFromComplete | kythe/cs/service/service.go:146-168 | scanning one file appends exactly the match ends the matcher reports that no match it started from covers, in order, each as an empty span of score 0, cut at the cap: the hits it adds itself never cover a later offset |
| Search.ScanFilesComplete | kythe/cs/service/service.go:138-169 | a successful scan of the candidates appends exactly the hits of every candidate file in turn, cut at the cap |
| Search.ScanFilesPanics | kythe/cs/service/service.go:138-145 | the scan panics exactly when it reaches a candidate without source data while the results are still below the cap |
| Search.SearchComplete | kythe/cs/service/service.go:124-172 | below the cap and with a pattern that compiles, a successful search is the ranked matches followed by every full-text hit of the candidate files that no ranked match covers, cut at 100; it panics exactly when a file without source data is reached before the cap |
| Search.Overlaps | kythe/cs/service/service.go:156-163 | tells exactly whether some match of the file has start < offset <= end |
| Search.MatchFrom | kythe/cs/service/service.go:105-117 | computes the definition match for a first occurrence and boundary |
| Search.MatchDefinition | kythe/cs/service/service.go:104-118 | computes a definition's match |
| Search.DefsOfFile | kythe/cs/service/service.go:103-119 | the inner loop computes a file's definition matches in order |
| Search.MatchesOfFile | kythe/cs/service/service.go:103-122 | computes a file's definition and file-name matches in order |
| Search.CollectMatches | kythe/cs/service/service.go:102-123 | the outer loop computes the first phase |
| Search.ScanFile | kythe/cs/service/service.go:146-168 | computes one file's scan and reports whether the cap was reached |
| Search.ScanCandidates | kythe/cs/service/service.go:138-169 | the labelled loops compute the scan of the candidates, stopping at the cap |
| Search.SearchIndex | kythe/cs/service/service.go:96-172 | computes the search result |
| Search.SearchCapped | kythe/cs/service/service.go:126-127 | a successful search returns at most 100 matches |
| Search.SearchAtCap | kythe/cs/service/service.go:125-128 | with 100 or more first-phase matches the result is the first 100 ranked ones, whatever the pattern compiles to and whatever the posting list holds |
| Search.SearchBadPattern | kythe/cs/service/service.go:130-134 | the search fails with the pattern error exactly when the pattern does not compile and fewer than 100 first-phase matches exist |
| Search.SearchRanked | kythe/cs/service/service.go:96-172 | a result starts with the ranked first-phase matches (a permutation of them, in score order, cut to the cap) and continues only with uncovered full-text hits of candidate files; which hits these are is Search.SearchComplete |

## Left out

- Reading and writing: the delimited protobuf stream that `tu` reads, gob encoding and decoding in `tu`, `corpus` and `tumerge`, the raw-text staging write (index.go:373-375), `write`, `addRepo`, the HTML pages and static files, the `dump` functions, `main` and pprof. These are I/O. Entries are a plain datatype, and units arrive as a list of decoded records.
- Service parts other than `search`: HTTP handling, index loading and the atomic index swap. These are I/O and concurrency.
- The regular-expression engine and the trigram posting index are outside code. Whether the pattern compiles, the matcher (`cre.Match`) and the candidate file list are parameters.
- Search.ScanFrom: a matcher that reports an empty match is not modelled. The model assumes every reported match end is past the scan offset, so the scan advances.
- Scores are float32 in Go. Here they are exact rationals, with NaN for 0/0, so rounding is not modelled.
- Search.SearchRanked: `sort.Sort` is unstable, and NaN scores make `byScore` no order at all. The model sorts with a stable insertion sort under one fixed order that puts NaN last. It claims score order and permutation, not a particular order among ties.
- Sorting.InsertionSortSorted: `sort.Sort` in `dedup` and in `WriteTo` is also modelled by the stable insertion sort, on sequence values rather than in place. Order among entries that compare equal is one possible outcome. Sortedness, elements and the absence of adjacent equals hold for every outcome. The batch dedups of `corpus` (index.go:1327-1332) re-sort old and new entries together. Go's unstable sort may then bring together two equal entries that an earlier batch kept apart, such as the two copies in Records.DedupMayKeepDuplicates, and a later batch removes one of them. The stable stand-in never does this, so the model fixes one of the outcomes Go allows, and the duplicates that survive can differ from Go's.
- Resolver.CorpusIndex.MakeDefIndex: `write` sorts the path list by path (index.go:1255) and, page by page, each file's spans by start byte (index.go:978) before it calls `makeDefIndex` (index.go:1284). Neither sort is modelled. The model's definition index lists files in the order they were first seen and each file's definitions in the order their spans were placed, so the order in which `search` meets them can differ from Go's. The contents are the same.
- Sorting.CompactAdjacent: the ahead/behind compaction works on a sequence value, not in place on the slice.
- Go map iteration in `corpusindex.finish` (the leftover pass over `xrefmap` and the emit loop over `compmap`) is modelled in insertion order. That fixes one of the orders Go may choose for the entities and for the spans within a file.
- The `*[]Loc` pointers of `corpusindex.finish` are indices into an arena of location lists, and nil is `Nil`. A nil dereference is the failure outcome of `Finish`.
- Panics become failure outcomes:
  - `idx` on a deserialized table;
  - `asLanguageName` without '#';
  - a nil pointer in `finish`;
  - `LineNumber` on an empty table;
  - `SeekToName` on a malformed header;
  - a candidate file with no source data in `search`.
- Records.TUInfo.Merge: requires a writable (not deserialized) target table. Go would panic when merging into a decoded, non-empty record; `corpus` always merges into a fresh one.
- Strings are sequences of characters. `strings.ToLower` is modelled for ASCII letters only; Unicode case mapping is not modelled.
- Go's `strconv` package is not part of this model. Numbers follows its documented base-10 behaviour: `ParseUint` stops with a range error at the first digit that passes the largest uint64 and with a syntax error at the first non-digit; `ParseInt` and `Atoi` take one optional sign and clamp to int64. The error values themselves are dropped, because the indexer ignores them.
- String-table handles are unbounded naturals. The int32 width of `StrIndex` (more than 2^31 strings) is not modelled. Refpack fields and definition counts are converted to int32/uint32 explicitly. Anchor bounds are parsed with `Atoi`'s int64 clamp, which also applies when a too-large run of digits is followed by other text (Numbers.AtoiRangeWins), and `+ 1` is computed unbounded before the int32 conversion; TuBuilder.AnchorOutOfRange shows this gives the same int32 as Go's int64 wrap.
- The `Seek` error of `SeekToName` is not modelled. The stream is an in-memory byte reader, whose seek to a non-negative offset never fails.
- `StrTab.get` is plain indexing (Interner.StrTab.Get).
- TuBuilder.TuIndex.Classify and the other `TuIndex` methods state the new state as one step of the stream fold. What the fold means is proved as lemmas about the fold: TuBuilder.BlacklistOfStream, RefsOfStream and UnitRefs, and the lemmas of `TuStream`. The anchor table over a whole stream is stated per anchor (TuBuilder.AnchorRoundTrip), not for arbitrary interleavings of start and end facts.
