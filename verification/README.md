# Astro: style-crawl of the dev module graph, and hoisted-script inlining

This project models two pieces of Astro's build and dev tooling and proves
properties about them in Dafny.

**`crawlGraph` and `isImportedBy`** (dev server, `vite.ts`).
- Before a page is rendered, the dev server walks Vite's module graph from the
  page's file, depth first. It yields every module reached through real
  imports, so that the styles those modules import can be preloaded.
- On the way it asks the module loader to compile `.astro`, `.mdoc` and
  markdown modules that have no server-rendered module yet.
- It stops at style requests and at modules carrying the
  `?astroPropagatedAssets` marker (the *propagation barriers*).
- It never follows an edge unless the imported module lists the importer among
  its own importers (a *real import*; `isImportedBy`).
- A shared `scanned` set of identifiers keeps it from looping.

In the model:
- The graph is an immutable snapshot (`ModuleGraph.Graph`). Nodes live in an
  arena and refer to each other by index.
- A crawl is a pure function (`Crawler.Crawl`, mutually recursive with the
  yield loop `Crawler.Descend`). It returns three things:
  - the nodes yielded, in order;
  - the `scanned` set it leaves behind;
  - the identifiers it asked the loader to compile, in order.
- The query-stripping regex, Node's POSIX `path.extname` and the barrier regex
  are modelled exactly (`ModuleIds`).

**`vitePluginScripts`** (client build, `plugin-scripts.ts`).
- The plugin starts with an inline limit of 4096 bytes
  (`ScriptInlining.DefaultInlineLimit`). `configResolved` replaces it with
  `build.assetsInlineLimit` whenever the config defines one.
- `generateBundle` visits the bundle's entries in key order. It moves an entry
  into `inlinedScripts` when all of these hold:
  - the entry is a chunk whose facade module is a discovered hoisted script;
  - it has no static or dynamic imports;
  - its code takes at most the limit in UTF-8 bytes.
- The entry's code is stored trimmed (`String.prototype.trim`) under the facade
  module, and the entry is deleted from the bundle.
- `Buffer.byteLength` and `trim` are modelled over Unicode scalar values
  (`JsString`).

Files, in dependency order:
- `optional.dfy`: `Option`.
- `js_string.dfy`: truthiness, UTF-8 length, trim.
- `module_ids.dfy`: query stripping, `extname`, barrier test.
- `module_graph.dfy`: graph snapshot, `getModuleById`, `isImportedBy`.
- `crawler.dfy`: the crawl.
- `crawl_properties.dfy`: inductive invariants of the crawl.
- `crawl_theorems.dfy`: what a crawl promises its caller.
- `crawl_order.dfy`: the order of the children a crawl's yield loop walks, and of its compile requests.
- `crawl_completeness.dfy`: what a crawl must yield, and the order of its direct yields.
- `crawl_examples.dfy`: crawls worked out on small graphs.
- `script_inlining.dfy`: the plugin.

## Model

| member | source | states |
|---|---|---|
| ModuleIds.StripQuery | packages/astro/src/vite-plugin-astro-server/vite.ts:58-61 | The result is a prefix of the identifier. The cut starts at a `?` that begins a match of `\?.*$` (no line terminator after it). No earlier position begins a match, so the leftmost match is removed. |
| ModuleIds.FirstQueryFrom | packages/astro/src/vite-plugin-astro-server/vite.ts:13 | The index found is the leftmost position, at or after the start, where `\?.*$` matches, or the end of the string when nothing matches. |
| ModuleIds.Contains | packages/astro/src/vite-plugin-astro-server/vite.ts:64-66 | The substring test for the literal barrier pattern is true if and only if the pattern occurs at some position of the identifier. |
| ModuleIds.ExtName | packages/astro/src/vite-plugin-astro-server/vite.ts:63 | The extension is empty or starts with a dot. Its other characters contain no dot and no slash. |
| ModuleIds.ExtNameIgnoresTrailingSlash | packages/astro/src/vite-plugin-astro-server/vite.ts:63 | A trailing slash does not change the extension. |
| ModuleIds.ExtNameAfterDirectory | packages/astro/src/vite-plugin-astro-server/vite.ts:63 | Only the last path segment decides the extension; the directory part is ignored. |
| ModuleIds.ExtNameOfNamedFile | packages/astro/src/vite-plugin-astro-server/vite.ts:63 | A segment `stem.ext` with a non-empty stem has extension `.ext`, so `page.astro` needs server rendering. |
| ModuleIds.ExtNameOfDotFile | packages/astro/src/vite-plugin-astro-server/vite.ts:63 | A dot file such as `.md` has no extension: the leading dot does not start one. |
| ModuleIds.ExtNameWithoutDot | packages/astro/src/vite-plugin-astro-server/vite.ts:63 | A segment without a dot (a virtual id such as `virtual:image-loader`) has the empty extension. |
| ModuleIds.IsPropagationBarrier | packages/astro/src/vite-plugin-astro-server/vite.ts:66 | An identifier is a barrier exactly when `?astroPropagatedAssets` occurs somewhere in it, which needs at least 22 characters. |
| ModuleGraph.ImportedByFrom | packages/astro/src/vite-plugin-astro-server/vite.ts:107-112 | The importer loop returns true exactly when some importer from the current index onward has the parent's identifier. |
| ModuleGraph.IsImportedBy | packages/astro/src/vite-plugin-astro-server/vite.ts:106-113 | An edge is a real import exactly when some node in the child's importer list has the parent's identifier; a `null` identifier never matches. |
| ModuleGraph.GetModuleById | packages/astro/src/vite-plugin-astro-server/vite.ts:39 | The lookup finds a node exactly when the identifier is registered, and then it finds the registered node. |
| Crawler.SsrExtensions | packages/astro/src/vite-plugin-astro-server/vite.ts:11 | An extension calls for compilation ahead of time exactly when it is `.astro`, `.mdoc` or one of the markdown extensions. |
| Crawler.RequestsCompile | packages/astro/src/vite-plugin-astro-server/vite.ts:61-73 | A compile is requested exactly when the query-stripped identifier has one of those extensions, the raw identifier is not a barrier, and the node registered under it is missing or has no server-rendered module. |
| Crawler.KeepsEdge | packages/astro/src/vite-plugin-astro-server/vite.ts:85 | An edge is followed exactly when the imported module has a non-empty identifier, is not a barrier, and lists a node carrying the parent's identifier among its importers. |
| Crawler.AddUnique | packages/astro/src/vite-plugin-astro-server/vite.ts:86 | Adding to the insertion-ordered `importedModules` set keeps the set free of repeats and keeps its earlier order; the result holds the old members plus the new one. |
| Crawler.ScanEdge | packages/astro/src/vite-plugin-astro-server/vite.ts:51-88 | After one import edge: the children gain the edge's node exactly when the edge is followed. The compiles are the earlier ones followed by this edge's request, which exists exactly for an eligible module with an identifier. |
| Crawler.CompileRequests | packages/astro/src/vite-plugin-astro-server/vite.ts:51-80 | Along a list of edges, a request for `x` is made exactly when some edge leads to a node with identifier `x` that is eligible. There is at most one request per edge. |
| Crawler.ScanEdges | packages/astro/src/vite-plugin-astro-server/vite.ts:51-88 | Over a node's import edges, the children are the earlier ones plus exactly the followed edges, as a set. The compiles are exactly the earlier ones followed by `CompileRequests` of the edges: one request per eligible edge, in edge order, repeats kept. |
| Crawler.EntriesFor | packages/astro/src/vite-plugin-astro-server/vite.ts:32-39 | At the root, the entries are the nodes registered for the file, or none when the file is unknown. Elsewhere, the entry is the single lookup by identifier, which may be absent. |
| Crawler.ScanEntries | packages/astro/src/vite-plugin-astro-server/vite.ts:42-90 | Only present entries carrying exactly the identifier are expanded. The identifier counts as matched exactly when such an entry exists. Children and compiles are exactly those contributed by the matching entries. |
| Crawler.Expand | packages/astro/src/vite-plugin-astro-server/vite.ts:30-90 | The collection phase yields distinct in-range children and only eligible compile requests. Having children implies an entry matched, and a matched identifier belongs to the graph. |
| Crawler.Crawl | packages/astro/src/vite-plugin-astro-server/vite.ts:17-101 | A crawl terminates on every valid snapshot. It never removes from `scanned`, yields only in-range nodes and requests only eligible compiles. A style request yields nothing, scans nothing and compiles nothing. |
| Crawler.Descend | packages/astro/src/vite-plugin-astro-server/vite.ts:94-101 | The yield loop terminates, never removes from `scanned`, yields only in-range nodes and requests only eligible compiles. |
| Crawler.CrawlScansGraphIds | packages/astro/src/vite-plugin-astro-server/vite.ts:48-49 | A crawl adds to `scanned` only identifiers of nodes of the graph. |
| Crawler.DescendScansGraphIds | packages/astro/src/vite-plugin-astro-server/vite.ts:94-101 | The yield loop, too, adds only identifiers of the graph to `scanned`. |
| Crawler.CrawlPage | packages/astro/src/vite-plugin-astro-server/vite.ts:17-28 | The dev server's call starts from an empty `scanned` set. It scans only identifiers of the graph, and a page that is a style request yields, scans and compiles nothing. |
| CrawlProperties.ChildrenAreKeptEdges | packages/astro/src/vite-plugin-astro-server/vite.ts:85-87 | Every module the collection phase keeps is a real import of the crawled identifier and is not a barrier. |
| CrawlProperties.CrawlYieldsFresh | packages/astro/src/vite-plugin-astro-server/vite.ts:94-100 | Every yielded module has a non-empty identifier, is not a barrier and was not scanned when the crawl began. If the crawl expanded its own identifier, that identifier ends up scanned and is never yielded. A crawl that expands nothing yields nothing. |
| CrawlProperties.DescendYieldsFresh | packages/astro/src/vite-plugin-astro-server/vite.ts:94-100 | The yield loop yields only unscanned, non-barrier modules with identifiers. |
| CrawlProperties.CrawlScanned | packages/astro/src/vite-plugin-astro-server/vite.ts:48-49 | Everything the crawl adds to `scanned` is its own identifier or the identifier of a yielded module that expands. Every yielded module that expands ends up scanned. |
| CrawlProperties.DescendScanned | packages/astro/src/vite-plugin-astro-server/vite.ts:94-101 | The same accounting of `scanned` holds for the yield loop. |
| CrawlProperties.CrawlRepeats | packages/astro/src/vite-plugin-astro-server/vite.ts:94-100 | An identifier yielded twice in one crawl belongs to a module whose own crawl expands nothing, such as a style request or a missing entry. |
| CrawlProperties.DescendRepeats | packages/astro/src/vite-plugin-astro-server/vite.ts:94-100 | The same holds for the yield loop. |
| CrawlProperties.CrawlJustified | packages/astro/src/vite-plugin-astro-server/vite.ts:32-100 | Each yielded module was kept by the collection phase of the crawled identifier itself, or by that of a module yielded before it that is not a style request. The edge actually followed is named, not just some import edge. |
| CrawlProperties.DescendJustified | packages/astro/src/vite-plugin-astro-server/vite.ts:94-100 | Each module the loop yields is one of its children, or was kept by the collection phase of a module yielded before it that is not a style request. |
| CrawlTheorems.ScannedYieldedAtMostOnce | packages/astro/src/vite-plugin-astro-server/vite.ts:94-100 | An identifier that is scanned when the crawl ends is yielded at most once. Nothing scanned before the crawl is yielded at all. |
| CrawlTheorems.RootNeverYielded | packages/astro/src/vite-plugin-astro-server/vite.ts:23-49 | The crawled identifier, raw or unwrapped, is never among the yielded modules. |
| CrawlTheorems.BarriersNeverYielded | packages/astro/src/vite-plugin-astro-server/vite.ts:64-87 | No yielded module lacks an identifier or carries `?astroPropagatedAssets`. Since the crawl descends only into modules it yields, it never traverses a barrier. |
| CrawlTheorems.YieldsFollowRealImports | packages/astro/src/vite-plugin-astro-server/vite.ts:82-100 | Every yielded module was kept, through the importer-list check, by the crawl of the page or of an earlier yielded module that is not a style request. So that module is among its importers, and it is also a real import. |
| CrawlTheorems.ScannedIffEntryFound | packages/astro/src/vite-plugin-astro-server/vite.ts:42-49 | A fresh identifier becomes scanned if and only if it is not a style request and an entry carrying it is found. Without such an entry the crawl yields nothing. |
| CrawlTheorems.CrawlOnlyAdds | packages/astro/src/vite-plugin-astro-server/vite.ts:63-79 | `scanned` only grows. Every compile request is for a `.astro`, `.mdoc` or markdown module that is not a barrier and is missing or not yet server-rendered. |
| CrawlOrder.KeptEdges | packages/astro/src/vite-plugin-astro-server/vite.ts:85-87 | The followed edges of an entry are exactly its import edges that pass the real-import and barrier test. |
| CrawlOrder.ChildrenInDiscoveryOrder | packages/astro/src/vite-plugin-astro-server/vite.ts:30-94 | The list the yield loop walks holds each distinct followed edge exactly once, ordered by where the edge first appears across the expanded entries. The loop still skips a child whose identifier is already scanned. |
| CrawlOrder.ScanEdgesInserts | packages/astro/src/vite-plugin-astro-server/vite.ts:51-87 | The edge loop inserts exactly the followed edges into `importedModules`, in edge order. |
| CrawlOrder.ScanEntriesInserts | packages/astro/src/vite-plugin-astro-server/vite.ts:42-90 | The entry loop inserts the followed edges of each expanded entry, entry after entry. |
| CrawlOrder.ScanEntriesCompiles | packages/astro/src/vite-plugin-astro-server/vite.ts:42-80 | The entry loop's compile requests are those of each expanded entry's edges, entry after entry. |
| CrawlOrder.ExpandCompiles | packages/astro/src/vite-plugin-astro-server/vite.ts:32-80 | The collection phase requests, in order, one compile per eligible edge of each matching entry, entries in lookup order and repeats kept. |
| CrawlCompleteness.DescendCovers | packages/astro/src/vite-plugin-astro-server/vite.ts:94-101 | Every child of the loop that has an identifier is yielded, or its identifier is scanned when the loop ends. A child is never silently dropped. |
| CrawlCompleteness.CrawlCovers | packages/astro/src/vite-plugin-astro-server/vite.ts:28-101 | For a crawl of an identifier that is not a style request, every module its collection phase keeps is yielded or ends up scanned. |
| CrawlCompleteness.CrawlClosed | packages/astro/src/vite-plugin-astro-server/vite.ts:17-101 | For every module a crawl yields that is not a style request, every module kept by that module's own collection phase is yielded or scanned by the end of the crawl. |
| CrawlCompleteness.DescendClosed | packages/astro/src/vite-plugin-astro-server/vite.ts:94-101 | The same closure holds for the yield loop. |
| CrawlCompleteness.PageCrawlComplete | packages/astro/src/vite-plugin-astro-server/vite.ts:17-101 | For a page that is not a style request, every module at the end of a chain of followed edges from the page has the page's identifier or that of a yielded module. The chain may not pass through the page itself or a style request. |
| CrawlCompleteness.ChainTo | packages/astro/src/vite-plugin-astro-server/vite.ts:17-101 | Constructs, for the k-th module a page crawl yields, a chain of followed edges from the page that ends at it. |
| CrawlCompleteness.PageCrawlSound | packages/astro/src/vite-plugin-astro-server/vite.ts:17-101 | Converse of completeness: every module a page crawl yields ends a chain of followed edges from the page. The chain uses only edges the importer-list check kept, never through a propagation barrier, a style request or the page itself. |
| CrawlCompleteness.PageCrawlYieldsExactly | packages/astro/src/vite-plugin-astro-server/vite.ts:17-101 | For a page that is not a style request, an identifier other than the page's is yielded if and only if a chain of followed edges from the page ends at a module with that identifier. |
| CrawlCompleteness.ChainExtend | packages/astro/src/vite-plugin-astro-server/vite.ts:94-100 | A chain of followed edges extends by one edge kept by the crawl of its last module, when that module is not the page. |
| CrawlCompleteness.DescendSplit | packages/astro/src/vite-plugin-astro-server/vite.ts:94-101 | The loop over `a + b` yields what the loop over `a` yields, then what the loop over `b` yields when started from the scanned set `a` left. |
| CrawlCompleteness.DescendVisitsInOrder | packages/astro/src/vite-plugin-astro-server/vite.ts:94-101 | Child `i` is yielded at its turn exactly when it has an identifier the earlier children left unscanned. It then comes right after their output and is immediately followed by its own crawl's output. |
| CrawlCompleteness.DirectYieldsInOrder | packages/astro/src/vite-plugin-astro-server/vite.ts:94-100 | Two children yielded at their turns appear in the loop's output in loop order, each at the position where the children before it stop yielding. |
| CrawlCompleteness.CrawlYieldsChildrenInOrder | packages/astro/src/vite-plugin-astro-server/vite.ts:30-100 | In a whole crawl, kept children yielded at their turn appear in the order of the children, which is first-discovery order. |
| CrawlExamples.MutualImportCrawl | packages/astro/src/vite-plugin-astro-server/vite.ts:49-100 | When two modules import each other, the page's crawl yields the other module once and stops there, having scanned both. |
| CrawlExamples.CycleYieldsOnce | packages/astro/src/vite-plugin-astro-server/vite.ts:49-100 | On a concrete two-node import cycle, the page's crawl yields exactly `[b]` and scans `{a, b}`. |
| CrawlExamples.SharedStyleCrawl | packages/astro/src/vite-plugin-astro-server/vite.ts:28-100 | A style request imported by two modules of the page is yielded twice, once under each importer, because a style request is never scanned. |
| CrawlExamples.SharedStyleYieldedTwice | packages/astro/src/vite-plugin-astro-server/vite.ts:28-100 | On a concrete graph (page → x, y; x, y → s.css) the crawl yields exactly `[x, s.css, y, s.css]`. |
| JsString.Utf8Length | packages/astro/src/core/build/plugins/plugin-scripts.ts:29 | The byte length lies between one and four bytes per character. It equals the character count exactly when the code is pure ASCII. |
| JsString.Utf8LengthConcat | packages/astro/src/core/build/plugins/plugin-scripts.ts:29 | The byte length of a concatenation is the sum of the parts' byte lengths. |
| JsString.Trim | packages/astro/src/core/build/plugins/plugin-scripts.ts:31 | The trimmed code is a contiguous slice of the original, surrounded only by JavaScript white space and line terminators. It neither starts nor ends with one. |
| JsString.TrimIdempotent | packages/astro/src/core/build/plugins/plugin-scripts.ts:31 | Trimming already-trimmed code changes nothing. |
| ScriptInlining.ResolvedFromDefault | packages/astro/src/core/build/plugins/plugin-scripts.ts:9-18 | Starting from the default, the limit is 4096 when the config sets none, and the configured value otherwise. |
| ScriptInlining.ConfigResolved | packages/astro/src/core/build/plugins/plugin-scripts.ts:14-18 | A configured `assetsInlineLimit`, whatever its value, replaces the limit. When `build` or the option is absent, the current limit stays. |
| ScriptInlining.Inlinable | packages/astro/src/core/build/plugins/plugin-scripts.ts:23-30 | An inlined output is a chunk whose facade module is a discovered script, and its code has at most `limit` characters, since every character takes at least one byte. |
| ScriptInlining.InlinableByCharCount | packages/astro/src/core/build/plugins/plugin-scripts.ts:27-29 | For a self-contained discovered chunk, at most a quarter of `limit` characters always fits. Pure ASCII code fits exactly when it has at most `limit` characters. |
| ScriptInlining.KeptEntries | packages/astro/src/core/build/plugins/plugin-scripts.ts:20-35 | An entry stays in the bundle exactly when it is not inlinable. |
| ScriptInlining.InlinedAfter | packages/astro/src/core/build/plugins/plugin-scripts.ts:20-35 | After the pass, the scripts map has a key exactly when it had it before or some entry is inlined under it. When several entries share a facade module, the last one's trimmed code wins. Keys no entry inlines keep their old value. |
| ScriptInlining.GenerateBundle | packages/astro/src/core/build/plugins/plugin-scripts.ts:20-35 | The in-place loop leaves exactly the non-inlinable entries, in order, and the scripts map described by `InlinedAfter`. The discovered scripts are untouched. |
| ScriptInlining.KeptEntriesConcat | packages/astro/src/core/build/plugins/plugin-scripts.ts:32 | Deleting entries keeps the bundle's key order: the kept part of two consecutive stretches is the kept part of each, in turn. |
| ScriptInlining.SecondPassKeepsAll | packages/astro/src/core/build/plugins/plugin-scripts.ts:20-35 | A second pass over what the first pass left deletes nothing more. |
| ScriptInlining.NothingInlinableKept | packages/astro/src/core/build/plugins/plugin-scripts.ts:20-35 | A bundle with no inlinable entry is left as it is. |
| ScriptInlining.InlineLimitInclusive | packages/astro/src/core/build/plugins/plugin-scripts.ts:29 | Code of exactly `limit` bytes is inlined; one byte more is not. |
| ScriptInlining.LimitCountsBytes | packages/astro/src/core/build/plugins/plugin-scripts.ts:29 | The limit counts bytes, not characters: two euro signs (6 bytes) are over a limit of 5. |

## Left out

- Asynchrony and laziness: the crawl is an async generator, and callers may stop consuming it early. The model computes the whole sequence eagerly, so a consumer that stops early sees a prefix of `yielded`.
- Compilation side effects: `loader.import` may add nodes and edges to the graph while the crawl runs, and its errors are swallowed. The model records each request in `compiles` and reads one snapshot for the whole crawl, so two effects are missing.
  - Edges a compile reveals are never followed. For example, a page imports `M`, and compiling `M` reveals that `M` imports `N`. The source may reach `N` when it later crawls `M`. The model never does.
  - A compile never sets the node's `hasSsrModule`. So the model requests the same identifier again at every later eligible edge to it, where the source would usually not.
- `unwrapId`, `isCSSRequest` and `SUPPORTED_MARKDOWN_FILE_EXTENSIONS`: their definitions live in other files and are not part of this model. They are fields of `ModuleGraph.Host` and range over every function and every set.
- Crawler.Crawl: assumes `ModuleGraph.Valid`, which requires every node identifier to be left unchanged by `unwrapId`. This is needed for termination. The source checks `scanned` with the raw identifier but adds the unwrapped one. Given a node whose identifier `unwrapId` changes, and a node with the unwrapped identifier that imports it back, the source would recurse forever. The graph Vite builds stores resolved identifiers, which are already unwrapped.
- Duplicate yields: the crawl is commonly described as yielding each module once. The code does not guarantee that: a style request (or an identifier with no graph entry) is never added to `scanned`, so it is yielded once per importer. The model follows the code. `CrawlTheorems.ScannedYieldedAtMostOnce` states the guarantee that does hold, and `CrawlExamples.SharedStyleYieldedTwice` shows the duplicate.
- `getModulesByFile` returning `undefined` and returning an empty set are both modelled as "no entries" (`byFile` has no key). Its iteration order is the order of the snapshot's sequence.
- `byFile` entries may repeat a node index, which a JavaScript `Set` cannot. A repeated entry is expanded again. That adds no new children, because `importedModules` is a set, but it repeats the entry's compile requests.
- `path.extname` is Node's POSIX variant. On Windows `npath` is the win32 variant, which also treats `\` as a separator, and that is not modelled.
- Lone UTF-16 surrogates: a Dafny `char` is a Unicode scalar value, so code containing an unpaired surrogate cannot be expressed. `Buffer.byteLength` counts such a surrogate as 3 bytes.
- `assetsInlineLimit` given as a function (a newer Vite form) is not modelled. Only a number or `undefined` is. A non-integer number is not modelled either.
- `BuildInternals` has many fields; only `discoveredScripts` and `inlinedScripts` are modelled, because the plugin touches no others. The other output fields of a chunk are dropped for the same reason, and a non-chunk output is a bare `Asset`.
- `pluginScripts` and the plugin objects' names and hooks: registration boilerplate with no logic.
- `base-pipeline.ts`: a holder of pipeline configuration that the crawl and the plugin do not depend on.
