# clangbar, modelled in Dafny

`clangbar` parses a C/C++ translation unit with libclang and records, for
every global function *defined* in the file under analysis, the global and
external identifiers that the function uses (`proginfo.FuncUse` holding
`proginfo.Use` values). `clangviz` reads those records back and draws a
file-interaction graph in the DOT language. The graph has one edge from the
file of each function to the file that defines each identifier it uses.

The model covers the analysis pass of `cmd/clangbar/main.go` and the graph
builder of `cmd/clangviz/main.go`:

- `ProgInfo` (proginfo.dfy): the record types `Location`, `Use` and
  `FuncUse`. `Zero` is the zero `cc.Location`, which marks an external use.
- `Ast` (ast.dfy): the cursor as the analysis sees it. A node has a kind,
  a spelling, a location, the kinds of its semantic parents, an optional
  definition and its children. `Preorder` is the visiting order of
  `cc.Walk`.
- `Clangbar` (clangbar.dfy): the operations of clangbar's analysis pass.
  - `isGlobal` is the `Scope` function and the `IsGlobal` loop. `isDef` is
    `IsDef`, `isDefOrInSrc` is `IsDefOrInSrc` and `contains` is `Contains`.
    `isExternal` is `IsExternal`.
  - The `findUses` and `recordNodes` closures are the per-node steps
    `UseOf` and `RecordedAs`. A walk runs them through the collection fold
    `Gather`, and the `FindUses` and `RecordNodes` loops compute that fold.
  - The two definition-map loops are the `Admit` step, folded by `Merge`
    and computed by the `MergeDefs` loop.
  - The back-fill of `resolveExternalDefs` is `Backfill` for one use and
    `ResolveExternalDefs` for one record.
  - `analyze` is the `Analysis` function and the `Analyze` method.
  - `filter` is the `Kept` function and the `Filter` loop.
  - Every Go `panic` is a `Fail` of type `Fatal`. Every message of the
    `warn` logger is a `Warning` value.
- `Clangviz` (clangviz.dfy): `genFileInteractionGraph`.
  - The inner and outer loops over the records are `AddUseEdges` and
    `CollectEdgeSet`. They compute the folds `AddUses` and `Collect`. The
    panic on a zero definition location is `Fail(BuiltinIdentifier(use))`.
  - `Keys` is the map-to-slice loop and `SortEdges` is the `sort.Slice`
    call. `Write` emits the DOT text, and `GenFileInteractionGraph`
    composes the whole function.
  - The reference definition is `Graph`: the rendering of the unique strictly
    sorted sequence (`Ordered`) of the edge set `EdgesOf`.
- `Paths` (paths.dfy): `filepath.Ext` and `filepath.Base` as they behave on
  Unix, and `pathutil.TrimExt` and `pathutil.FileName`.
- `GoQuote` (quote.dfy): the `%q` verb on strings, together with a decoder.
- `Strings` (strings.dfy): `strings.HasPrefix`, `strings.Contains` and
  Go's `<` on strings.
- `Outcome` (outcome.dfy): `Option` and `Result`.

## Model

| member | source | states |
|---|---|---|
| Clangbar.ScopeDecided | cmd/clangbar/main.go:245-265 | isGlobal walks the semantic parents and looks through the transparent containers. It answers global exactly when the first other parent is the translation unit, and local exactly when that parent is a function, function template, constructor or method. It panics naming exactly any other kind. It fails exactly when every parent is a transparent container. |
| Clangbar.IsGlobal | cmd/clangbar/main.go:245-265 | the parent-walking loop returns exactly the scope classification. |
| Clangbar.Contains | cmd/clangbar/main.go:159-169 | the walk finds a node of the kind exactly when the subtree holds one. |
| Ast.PreorderHasKind | cmd/clangbar/main.go:161-168 | a node of a kind occurs in cc.Walk's visiting order exactly when the subtree holds one. |
| Ast.PreorderAllHasKind | cmd/clangbar/main.go:161-168 | the same for a list of subtrees. |
| Clangbar.IsDef | cmd/clangbar/main.go:267-278 | succeeds exactly for variable and function declarations, and otherwise panics naming the kind. A variable is a definition exactly when it has children. A function is a definition exactly when its subtree contains a compound statement. |
| Clangbar.IsDefOrInSrc | cmd/clangbar/main.go:141-157 | a definition is accepted. Otherwise it is accepted exactly for the extensions .c, .cpp and .cxx. It is rejected exactly for .h and .hpp, or for another extension in a path containing "/include/". Any other extension panics with that extension and file. A panic of isDef propagates. |
| Clangbar.GatherAppend | cmd/clangbar/main.go:189-222 | collecting over a concatenated walk collects over each part in order. The first panic wins. |
| Clangbar.GatherFailurePersists | cmd/clangbar/main.go:189-222 | once a step panics, the rest of the walk does not change the outcome. |
| Clangbar.GatherSound | cmd/clangbar/main.go:189-222 | every collected item was produced by the step on a visited node. |
| Clangbar.GatherComplete | cmd/clangbar/main.go:189-222 | collection succeeds exactly when no step panics. Every item a step produces is then collected. |
| Clangbar.UseOf | cmd/clangbar/main.go:192-219 | a node that is not an identifier reference, or a local use, yields nothing. An external reference, which has no definition, yields a use with the zero definition location. A global reference yields a use carrying the definition's location. The only panic is isGlobal's, on a reference that is not external. |
| Clangbar.IsExternal | cmd/clangbar/main.go:236-243 | a reference is external exactly when clang gives no definition cursor, or one whose location is the zero location. |
| Clangbar.ExternalUseUnlocated | cmd/clangbar/main.go:197-215 | a recorded use has the zero definition location exactly when its reference is external. Global uses always carry a location. |
| Clangbar.FindUses | cmd/clangbar/main.go:189-222 | the walk returns the external and global uses of the function's subtree, in pre-order. |
| Clangbar.RecordedAs | cmd/clangbar/main.go:224-234 | a node is recorded exactly when it has the requested kind and is global. It is then recorded as itself. It panics exactly when isGlobal panics on a node of that kind. |
| Clangbar.RecordNodes | cmd/clangbar/main.go:224-234 | the walk collects the global nodes of the kind, in pre-order. |
| Clangbar.RecordedExactly | cmd/clangbar/main.go:224-234 | a node is recorded exactly when it is in the walk, has the kind and is global. |
| Clangbar.RecordOf | cmd/clangbar/main.go:90-104 | a function declaration yields no record. A definition yields the record of its name, its location and its uses. A panic of isDef or findUses propagates. |
| Clangbar.FuncUses | cmd/clangbar/main.go:89-104 | the loop builds exactly the records of the function definitions, in order. |
| Clangbar.RecordFromDefinition | cmd/clangbar/main.go:89-104 | every record comes from a function definition of the list. |
| Clangbar.DefinitionRecorded | cmd/clangbar/main.go:89-104 | every function definition of the list has a record. |
| Clangbar.Admit | cmd/clangbar/main.go:107-134 | an unknown name is inserted. An entry that is a definition is kept. An entry that is a declaration is replaced by a candidate that is a definition or lies in a source file. Otherwise the entry is kept and one "already present" warning is emitted, for a variable or a function. It panics exactly when isDef or isDefOrInSrc does. |
| Clangbar.MergeDefs | cmd/clangbar/main.go:106-134 | the loop over the candidates computes the merge fold. |
| Clangbar.MergeFailurePersists | cmd/clangbar/main.go:106-134 | a panic on a candidate ends the merge with that panic. |
| Clangbar.MergeEntries | cmd/clangbar/main.go:106-134 | after the merge, the keys are the old keys plus the candidates' names. Every entry is either unchanged or a candidate with that name. |
| Clangbar.AdmitEntries | cmd/clangbar/main.go:107-119 | one candidate adds only its own name, and changes at most the entry under that name, to itself. |
| Clangbar.NamesSnoc | cmd/clangbar/main.go:107-134 | the candidates' names are those of all but the last candidate, plus the last one's. |
| Clangbar.MergeKeepsDefinition | cmd/clangbar/main.go:109-111 | no later candidate replaces an entry that is a definition. |
| Clangbar.MergeSourceWins | cmd/clangbar/main.go:106-134 | take a scan of any candidates, starting from a map without the name or with a header declaration under it. Suppose one candidate is a definition or a source-file declaration, and every other candidate of its name is a header declaration. Then that candidate ends up under the name, wherever it lies in the scan and whatever other names surround it. |
| Clangbar.MergeSourceEntry | cmd/clangbar/main.go:106-134 | until the source-file candidate is met, the name is absent or held by a header declaration. From then on, it is held by that candidate. |
| Clangbar.Backfill | cmd/clangbar/main.go:171-186 | a use whose definition location is set, or whose name is not in the map, is unchanged. A zero location of a known name takes the map entry's location. The name and use location never change. |
| Clangbar.BackfillAll | cmd/clangbar/main.go:173-186 | every use of a record is back-filled in place, and the count is kept. |
| Clangbar.ResolveExternalDefs | cmd/clangbar/main.go:171-187 | the record comes back with its uses back-filled, and with one warning for each unresolved use not named "__builtin_…", in order. |
| Clangbar.ResolvedIdempotent | cmd/clangbar/main.go:171-187 | resolving a resolved record changes nothing. |
| Clangbar.UnresolvedInExactly | cmd/clangbar/main.go:173-186 | one warning is printed for each use that keeps a zero definition location, has an unknown name and has no "__builtin_" prefix. The warnings follow the order of the uses, repeated names included, and no other use draws one. |
| Clangbar.ResolvedAll | cmd/clangbar/main.go:135-137 | every record is resolved against the map, in order, and the count is kept. |
| Clangbar.ResolveAll | cmd/clangbar/main.go:135-137 | the loop resolves every record and gathers the warnings in order. |
| Clangbar.Analyze | cmd/clangbar/main.go:76-139 | the method computes the analysis: the globals, the functions, the records, the two merges and the back-fill. |
| Clangbar.ResolvedOfDefinition | cmd/clangbar/main.go:89-137 | the back-filled record of a global function definition is a record of that definition. |
| Clangbar.ResolvedRecordsSound | cmd/clangbar/main.go:89-137 | every resolved record belongs to a global function definition of the walk. Its uses are that function's uses with only zero definition locations filled in. |
| Clangbar.ResolvedRecordsComplete | cmd/clangbar/main.go:89-137 | every global function definition of the walk has a resolved record. |
| Clangbar.AnalysisRecords | cmd/clangbar/main.go:76-139 | analyze yields a record exactly for each global function definition of the tree. Each record's uses are that function's uses in pre-order, with only zero definition locations back-filled. |
| Clangbar.Filter | cmd/clangbar/main.go:64-74 | the loop computes the filtered list. |
| Clangbar.KeptExactly | cmd/clangbar/main.go:64-74 | a record is kept exactly when it is in the input and its file, without its extension, equals the source path without its extension. |
| Clangbar.KeptAppend | cmd/clangbar/main.go:64-74 | filtering a concatenation filters each part and keeps their order. |
| Clangbar.KeptIdempotent | cmd/clangbar/main.go:64-74 | filtering twice is filtering once. |
| Clangbar.SelectExactly | cmd/clangbar/main.go:64-74 | the selection holds exactly the input elements that satisfy the condition. |
| Clangbar.SelectSnoc | cmd/clangbar/main.go:66-72 | one more element is appended exactly when it satisfies the condition. |
| Clangbar.SelectAppend | cmd/clangbar/main.go:64-74 | selection distributes over concatenation. |
| Clangbar.SelectIdempotent | cmd/clangbar/main.go:64-74 | selecting twice is selecting once. |
| Paths.Ext | cmd/clangbar/main.go:145 | the extension is a suffix of the path. |
| Paths.ExtFrom | cmd/clangbar/main.go:145 | the scan for the extension returns a suffix of the path. |
| Paths.ExtShape | cmd/clangbar/main.go:145 | the extension is empty or a '.' followed by neither '/' nor '.'. It is empty exactly when the last path element has no '.'. |
| Paths.ExtFromShape | cmd/clangbar/main.go:145 | the scan returns a well-formed extension. |
| Paths.ExtFromEmpty | cmd/clangbar/main.go:145 | the scan returns "" exactly when the last element has no '.'. |
| Paths.ExtOfFile | cmd/clangbar/main.go:145-150 | the extension of a name followed by an extension is that extension. |
| Paths.TrimExt | cmd/clangbar/main.go:67 | the trimmed path followed by the extension is the path. |
| Paths.TrimTrailingSlashes | cmd/clangviz/main.go:59 | the result is a prefix without a final '/', and only slashes were dropped. |
| Paths.LastElement | cmd/clangviz/main.go:59 | the result is the slash-free tail that follows the last '/'. |
| Paths.BaseOfFile | cmd/clangviz/main.go:59 | the base of "dir/tail" is the tail. |
| Paths.FileNameOfFile | cmd/clangviz/main.go:59 | the file name of "dir/name.ext" is the name. |
| Paths.FileNameHasNoSlash | cmd/clangviz/main.go:59 | the file name of a relative path holds no '/'. |
| GoQuote.EscapeChar | cmd/clangviz/main.go:107 | the escape of one character is non-empty and holds no newline. |
| GoQuote.DecodeEscape | cmd/clangviz/main.go:107 | a decoded escape consumes at least one character and no more than are there. |
| GoQuote.HexRoundTrip | cmd/clangviz/main.go:107 | a hexadecimal digit decodes to its value. |
| GoQuote.EscapeCharDecodes | cmd/clangviz/main.go:107 | decoding an escaped character gives the character back. |
| GoQuote.UnescapeEscape | cmd/clangviz/main.go:107 | decoding an escaped string gives the string back. |
| GoQuote.UnquoteQuote | cmd/clangviz/main.go:107 | a name printed with %q reads back as the same name. |
| GoQuote.EscapeSingleLine | cmd/clangviz/main.go:107 | a name printed with %q holds no newline, so each edge takes one line. |
| Strings.LessIrreflexive | cmd/clangviz/main.go:97-103 | no string sorts before itself. |
| Strings.LessAsymmetric | cmd/clangviz/main.go:97-103 | two strings never sort before each other. |
| Strings.LessTransitive | cmd/clangviz/main.go:97-103 | string order is transitive. |
| Strings.LessTotal | cmd/clangviz/main.go:97-103 | of two different strings, one sorts first. |
| Clangviz.AddUseEdges | cmd/clangviz/main.go:64-89 | the loop over one record's uses computes the edge fold. It skips standard-include and builtin uses, panics on a zero definition location, and otherwise adds the edge. |
| Clangviz.Draw | cmd/clangviz/main.go:65-88 | a use is skipped exactly when it is defined in a standard include or names a builtin. It panics exactly when it is not skipped and has the zero definition location, and the panic carries that use. Otherwise it draws the edge from the function's node to the node of the definition's file. |
| Clangviz.NodeName | cmd/clangviz/main.go:59-63 | a path outside "Source/" is its own node name. A path under "Source/" is named by its last element without the extension, which holds no '/'. |
| Clangviz.ExampleSteps | cmd/clangviz/main.go:64-88 | of the example's uses, the two defined in ordinary files are drawn, and the standard-library use and the builtin are skipped. |
| Clangviz.AddUsesEdges | cmd/clangviz/main.go:64-89 | the uses of a record are drawn without panic exactly when none is unresolved, meaning not skipped and with a zero definition location. The edges added are exactly the edges of the drawn uses. A panic names an unresolved use of the record. |
| Clangviz.AddAllEdges | cmd/clangviz/main.go:64-89 | the fold succeeds exactly when no step panics. It then adds exactly the edges the steps yield, and a panic comes from a step. |
| Clangviz.AddAllFailurePersists | cmd/clangviz/main.go:73-77 | the panic ends the loop. |
| Clangviz.CollectFailurePersists | cmd/clangviz/main.go:73-77 | the panic ends the outer loop too. |
| Clangviz.CollectStep | cmd/clangviz/main.go:58-90 | one record extends the edge set by its uses' edges from its own file's node name. |
| Clangviz.CollectEdgeSet | cmd/clangviz/main.go:57-90 | the loop over the records computes the edge set, or the panic. |
| Clangviz.EdgesOfSnoc | cmd/clangviz/main.go:58-90 | one more record adds exactly the edges of its drawn uses. |
| Clangviz.CollectEdges | cmd/clangviz/main.go:57-90 | building the edge set succeeds exactly when no record has an unresolved use. The set is then one edge per drawn use, from the function's node name to the definition's node name. A panic names an unresolved use of an input record. |
| Clangviz.Keys | cmd/clangviz/main.go:91-94 | the slice holds every edge of the map exactly once. |
| Clangviz.BeforeIrreflexive | cmd/clangviz/main.go:95-105 | no edge sorts before itself. |
| Clangviz.BeforeAsymmetric | cmd/clangviz/main.go:95-105 | two edges never sort before each other. |
| Clangviz.BeforeTransitive | cmd/clangviz/main.go:95-105 | the edge order is transitive. |
| Clangviz.BeforeTotal | cmd/clangviz/main.go:95-105 | of two different edges, one sorts first. |
| Clangviz.Insert | cmd/clangviz/main.go:95-105 | inserting an edge into a sorted slice keeps it strictly sorted, and adds exactly that edge. |
| Clangviz.InsertFront | cmd/clangviz/main.go:95-105 | an edge that sorts before the head may be placed in front. |
| Clangviz.InsertBehind | cmd/clangviz/main.go:95-105 | the head stays in front of a sorted tail that holds only larger edges. |
| Clangviz.SortEdges | cmd/clangviz/main.go:95-105 | the sort orders the edges by descending source, then ascending target, with the same edges and count. |
| Clangviz.LeastExists | cmd/clangviz/main.go:95-105 | every non-empty edge set has a first edge. |
| Clangviz.LeastOfMore | cmd/clangviz/main.go:95-105 | the first edge of a grown set is the new edge or the old first edge. |
| Clangviz.PrependLeast | cmd/clangviz/main.go:95-105 | the first edge followed by the sorted rest is sorted and holds the whole set. |
| Clangviz.Ordered | cmd/clangviz/main.go:95-105 | every edge set has a strictly sorted arrangement of the same edges. |
| Clangviz.StrictlySortedUnique | cmd/clangviz/main.go:95-105 | two strictly sorted slices of the same edges are equal. So the output does not depend on map iteration order. |
| Clangviz.TailElements | cmd/clangviz/main.go:95-105 | sorted slices with the same edges and head also share their tails' edges. |
| Clangviz.LinesStep | cmd/clangviz/main.go:106-108 | one more edge appends its one line. |
| Clangviz.Write | cmd/clangviz/main.go:106-110 | the text is "digraph {\n", then one line per edge in order, then "}\n". |
| Clangviz.EdgeLineNewlines | cmd/clangviz/main.go:107 | an edge line holds exactly one newline. |
| Clangviz.LinesNewlines | cmd/clangviz/main.go:106-108 | the edge lines hold one newline per edge. |
| Clangviz.RenderNewlines | cmd/clangviz/main.go:56-109 | the graph text holds exactly two more newlines than there are edges. |
| Clangviz.GenFileInteractionGraph | cmd/clangviz/main.go:54-111 | the function returns the graph text of the records, or the panic. |
| Clangviz.GraphEdges | cmd/clangviz/main.go:54-111 | the graph is produced exactly when no record has an unresolved use. It is then the rendering of the sorted, duplicate-free edge set. A panic names an unresolved use of an input record. |
| Clangviz.GraphOrderIndependent | cmd/clangviz/main.go:57-105 | records holding the same members, in any order or repetition, give the same graph or both panic. |
| Clangviz.SkippedRecordIgnored | cmd/clangviz/main.go:64-72 | a record whose uses are all standard-include or builtin uses changes nothing. |
| Clangviz.NodeNameOfSourceFile | cmd/clangviz/main.go:78-83 | a file under "Source/" is named by its file name without directory or extension. |
| Clangviz.ExampleEdges | cmd/clangviz/main.go:58-89 | the example function has four uses: one from another file, one from its own file, one from /usr/include/ and one builtin. They give exactly a self-edge and an edge to the other file. |
| Clangviz.ExampleGraph | cmd/clangviz/main.go:54-111 | the example's graph is the header, then the two edge lines in name order, then the footer. It has one line when both files have the same node name. |
| Clangviz.SelfAndOther | cmd/clangviz/main.go:91-110 | records whose edges are a self-edge and one other edge render with the target-ascending order for that source. |
| Clangviz.OneLine | cmd/clangviz/main.go:106-110 | a single edge renders as one line between header and footer. |
| Clangviz.TwoLines | cmd/clangviz/main.go:95-110 | two edges render in sort order between header and footer. |
| Clangviz.OrderedPair | cmd/clangviz/main.go:95-105 | two edges come out of the sort in their order. |
| Clangviz.LinesOfPair | cmd/clangviz/main.go:106-108 | two edges print as their two lines, in order. |
| Clangviz.HeaderFooterNewlines | cmd/clangviz/main.go:56-109 | the opening and the closing text are one line each. |

## Left out

- The two `main` functions and clangviz's `visualize` are not modelled. They parse arguments, call `cc.ParseFile` with fixed flags, create `_dump_`, read and write the JSON files and derive the output names. These are I/O.
- The clang and cc libraries are replaced by the `Ast.Node` value. A cursor's `Definition()` is an optional `Decl`, and `SemanticParent()` chains are lists of parent kinds.
- Clangbar.ScopeDecided: walking past the last semantic parent is a separate `ScopeChainExhausted` failure. In Go, the null cursor reached there has a kind that the switch sends to its default panic. Both are a panic.
- The `dbg` logger and the `pretty.Println` before the clangviz panic are not modelled. The `warn` messages are `Warning` values, without their formatted text.
- pathutil is not part of this model. Its `TrimExt` is taken to strip `filepath.Ext`, and its `FileName` to be `TrimExt(filepath.Base(path))`.
- GoQuote.EscapeChar: escapes exactly for ASCII. Every character from U+0080 up is treated as printable, whereas `strconv.Quote` escapes non-printable Unicode and invalid UTF-8 with `\u`, `\U` or `\x`.
- Go strings are byte sequences. The model uses sequences of characters, and `Strings.Less` compares code points, which orders strings as Go's byte-wise comparison of UTF-8 does.
- Clangviz.SortEdges: `sort.Slice` is modelled by an insertion sort. The edges are distinct and the comparison is a strict total order, so every correct sort gives the same slice (`Clangviz.StrictlySortedUnique`).
- Clangviz.Keys: Go's map iteration order is modelled as an arbitrary choice of the next edge.
- Go updates `Use` values in place through pointers, in `resolveExternalDefs`. The model returns new records instead. No `Use` is shared between records, so values and pointers give the same results.
- The `Func` field of `FuncUse` is not serialised (`json:"-"`) and is left out. The unresolved-use warning reads the function's spelling and location, which equal the record's `FuncName` and `FuncLoc`.
- The JSON round trip between the two commands is not modelled. clangviz's input is the records' values.
- `filter` returns a nil slice when nothing matches. The model does not distinguish nil from empty.
