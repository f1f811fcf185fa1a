/**
 * `crawlGraph`: the depth-first walk of the dev server's module graph that
 * collects the modules whose styles a page must preload, while asking the
 * loader to compile server-renderable modules it has not compiled yet.
 *
 * The async generator is modelled eagerly: a crawl returns the nodes it
 * yields, in order, the `scanned` set it leaves behind, and the identifiers
 * it asked the loader to compile (`loader.import`), in order.
 */
module Crawler {
  import opened Optional
  import opened JsString
  import opened ModuleGraph
  import opened ModuleIds

  /** `fileExtensionsToSSR`: component and content formats whose compilation reveals further imports. */
  function SsrExtensions(h: Host): (r: set<string>)
    ensures forall e :: e in r <==> e == ".astro" || e == ".mdoc" || e in h.markdownExtensions
  {
    {".astro", ".mdoc"} + h.markdownExtensions
  }

  /** The query-stripped identifier has one of the server-renderable extensions. */
  predicate IsFileTypeNeedingSsr(h: Host, id: string) {
    ExtName(StripQuery(id)) in SsrExtensions(h)
  }

  /**
   * The crawler asks the loader to compile `id`: a server-renderable file that
   * is not a propagation barrier and whose node, looked up by the raw
   * identifier, is missing or has no server-rendered module yet.
   */
  predicate RequestsCompile(h: Host, g: Graph, id: string): (b: bool)
    requires forall k :: k in g.byId ==> g.byId[k] < |g.nodes|
    ensures b <==> IsFileTypeNeedingSsr(h, id) && !IsPropagationBarrier(id) && (id !in g.byId || !g.nodes[g.byId[id]].hasSsrModule)
  {
    && IsFileTypeNeedingSsr(h, id)
    && !IsPropagationBarrier(id)
    && (GetModuleById(g, id).None? || !g.nodes[GetModuleById(g, id).value].hasSsrModule)
  }

  /** The imported node `c` has the identifier `id`, and a compile of `id` is requested when the edge is visited. */
  predicate CompileFor(h: Host, g: Graph, c: NodeRef, id: string)
    requires Valid(h, g)
  {
    c < |g.nodes| && g.nodes[c].id == Some(id) && id != "" && RequestsCompile(h, g, id)
  }

  /** The edge from `parent` to `c` is followed: a real import, with an identifier, that is not a barrier. */
  predicate KeepsEdge(h: Host, g: Graph, parent: string, c: NodeRef): (b: bool)
    requires Valid(h, g) && c < |g.nodes|
    ensures b <==> && g.nodes[c].id.Some? && g.nodes[c].id.value != ""
                   && !IsPropagationBarrier(g.nodes[c].id.value)
                   && exists j :: 0 <= j < |g.nodes[c].importers| && g.nodes[g.nodes[c].importers[j]].id == Some(parent)
  {
    && Truthy(g.nodes[c].id)
    && IsImportedBy(g, parent, c)
    && !IsPropagationBarrier(g.nodes[c].id.value)
  }

  /** A looked-up entry is present and carries exactly the (unwrapped) identifier being crawled. */
  predicate Matches(g: Graph, id: string, entry: Option<NodeRef>) {
    entry.Some? && entry.value < |g.nodes| && g.nodes[entry.value].id == Some(id)
  }

  predicate EntriesInRange(g: Graph, entries: seq<Option<NodeRef>>) {
    forall i :: 0 <= i < |entries| && entries[i].Some? ==> entries[i].value < |g.nodes|
  }

  predicate NoDup(s: seq<NodeRef>) {
    forall i, j :: 0 <= i < j < |s| ==> s[i] != s[j]
  }

  /**
   * What the collection phase of one crawl call found: whether an entry
   * matched, the nodes to descend into (the `importedModules` set, in
   * insertion order) and the compile requests made on the way.
   */
  datatype Expansion = Expansion(matched: bool, children: seq<NodeRef>, compiles: seq<string>)

  /** Set insertion: `s` keeps its order and gains `c` at the end unless already present. */
  function AddUnique(s: seq<NodeRef>, c: NodeRef): (r: seq<NodeRef>)
    requires NoDup(s)
    ensures NoDup(r)
    ensures forall x :: x in r <==> x in s || x == c
    ensures s <= r
  {
    if c in s then s else s + [c]
  }

  /** The request visiting the edge to `c` makes, if any. */
  function CompileOf(h: Host, g: Graph, c: NodeRef): (r: seq<string>)
    requires Valid(h, g) && c < |g.nodes|
    ensures forall x :: x in r <==> CompileFor(h, g, c, x)
  {
    var id := g.nodes[c].id;
    if Truthy(id) && RequestsCompile(h, g, id.value) then [id.value] else []
  }

  /** The `importedModules` set after the edge to `c`: `c` is added when the edge is followed. */
  function ChildrenAfter(h: Host, g: Graph, parent: string, c: NodeRef, children: seq<NodeRef>): (r: seq<NodeRef>)
    requires Valid(h, g) && c < |g.nodes|
    requires RefsInRange(g, children) && NoDup(children)
    ensures RefsInRange(g, r) && NoDup(r) && children <= r
    ensures forall x :: x in r <==> x in children || (x == c && KeepsEdge(h, g, parent, c))
  {
    if KeepsEdge(h, g, parent, c) then
      var r := AddUnique(children, c);
      assert RefsInRange(g, r) by {
        forall i | 0 <= i < |r| ensures r[i] < |g.nodes| {
          assert r[i] in r;
        }
      }
      r
    else children
  }

  /**
   * The compile requests visiting `edges` makes: one per edge whose module has
   * an identifier and is eligible, in edge order, repeats kept.
   */
  function CompileRequests(h: Host, g: Graph, edges: seq<NodeRef>): (r: seq<string>)
    requires Valid(h, g) && RefsInRange(g, edges)
    ensures |r| <= |edges|
    ensures forall x :: x in r <==> exists e :: e in edges && CompileFor(h, g, e, x)
  {
    if edges == [] then []
    else
      var c := edges[0];
      var rest := CompileRequests(h, g, edges[1..]);
      var head := CompileOf(h, g, c);
      assert forall x :: x in head + rest <==> exists e :: e in edges && CompileFor(h, g, e, x) by {
        forall x ensures x in head + rest <==> exists e :: e in edges && CompileFor(h, g, e, x) {
          if x in head {
            assert CompileFor(h, g, c, x) && c in edges;
          } else if x in rest {
            var e :| e in edges[1..] && CompileFor(h, g, e, x);
            assert e in edges;
          }
          if exists e :: e in edges && CompileFor(h, g, e, x) {
            var e :| e in edges && CompileFor(h, g, e, x);
            if e != c {
              assert e in edges[1..];
            }
          }
        }
      }
      head + rest
  }

  /** One iteration of the loop over `entry.importedModules`: the edge to `c`. */
  function ScanEdge(h: Host, g: Graph, parent: string, c: NodeRef, acc: Expansion): (r: Expansion)
    requires Valid(h, g) && c < |g.nodes|
    requires RefsInRange(g, acc.children) && NoDup(acc.children)
    ensures r.matched == acc.matched
    ensures RefsInRange(g, r.children) && NoDup(r.children)
    ensures acc.children <= r.children && acc.compiles <= r.compiles
    ensures forall x :: x in r.children <==> x in acc.children || (x == c && KeepsEdge(h, g, parent, c))
    ensures forall x :: x in r.compiles <==> x in acc.compiles || CompileFor(h, g, c, x)
    ensures r.compiles == acc.compiles + CompileOf(h, g, c)
  {
    if !Truthy(g.nodes[c].id) then acc
    else Expansion(acc.matched, ChildrenAfter(h, g, parent, c, acc.children), acc.compiles + CompileOf(h, g, c))
  }

  /** Requests made before the first edge, then at it, then at the rest, are the requests made along all edges. */
  lemma CompilesAppend(h: Host, g: Graph, edges: seq<NodeRef>, before: seq<string>, mid: seq<string>, after: seq<string>)
    requires Valid(h, g) && RefsInRange(g, edges) && edges != []
    requires mid == before + CompileOf(h, g, edges[0])
    requires after == mid + CompileRequests(h, g, edges[1..])
    ensures after == before + CompileRequests(h, g, edges)
  {
    var head := CompileOf(h, g, edges[0]);
    var rest := CompileRequests(h, g, edges[1..]);
    assert CompileRequests(h, g, edges) == head + rest;
    AppendAssoc(before, head, rest);
  }

  lemma AppendAssoc(a: seq<string>, b: seq<string>, c: seq<string>)
    ensures a + b + c == a + (b + c)
  {
  }

  /** The inner loop over `entry.importedModules` of a matching entry. */
  function ScanEdges(h: Host, g: Graph, parent: string, edges: seq<NodeRef>, acc: Expansion): (r: Expansion)
    requires Valid(h, g) && RefsInRange(g, edges)
    requires RefsInRange(g, acc.children) && NoDup(acc.children)
    ensures r.matched == acc.matched
    ensures RefsInRange(g, r.children) && NoDup(r.children)
    ensures acc.children <= r.children && acc.compiles <= r.compiles
    ensures forall c :: c in r.children <==> c in acc.children || (c in edges && KeepsEdge(h, g, parent, c))
    ensures forall x :: x in r.compiles <==> x in acc.compiles || exists e :: e in edges && CompileFor(h, g, e, x)
    ensures r.compiles == acc.compiles + CompileRequests(h, g, edges)
  {
    if edges == [] then
      assert acc.compiles + [] == acc.compiles;
      acc
    else
      var acc' := ScanEdge(h, g, parent, edges[0], acc);
      var r := ScanEdges(h, g, parent, edges[1..], acc');
      assert forall e :: e in edges <==> e == edges[0] || e in edges[1..];
      CompilesAppend(h, g, edges, acc.compiles, acc'.compiles, r.compiles);
      r
  }

  /** Some entry is present and carries `id`. */
  predicate AnyMatch(g: Graph, id: string, entries: seq<Option<NodeRef>>) {
    exists e :: e in entries && Matches(g, id, e)
  }

  /** `c` is a followed import edge of some expanded entry. */
  predicate KeptChildOf(h: Host, g: Graph, id: string, entries: seq<Option<NodeRef>>, c: NodeRef)
    requires Valid(h, g)
  {
    exists e :: e in entries && Matches(g, id, e) && c in g.nodes[e.value].importedModules && KeepsEdge(h, g, id, c)
  }

  /** Visiting the import edges of some expanded entry requests a compile of `x`. */
  predicate CompiledVia(h: Host, g: Graph, id: string, entries: seq<Option<NodeRef>>, x: string)
    requires Valid(h, g)
  {
    exists e :: e in entries && Matches(g, id, e) && exists c :: c in g.nodes[e.value].importedModules && CompileFor(h, g, c, x)
  }

  /** The three entry-set predicates split into the first entry and the rest. */
  lemma EntriesSplit(h: Host, g: Graph, id: string, entries: seq<Option<NodeRef>>)
    requires Valid(h, g) && entries != []
    ensures AnyMatch(g, id, entries) <==> Matches(g, id, entries[0]) || AnyMatch(g, id, entries[1..])
    ensures forall c :: KeptChildOf(h, g, id, entries, c) <==>
      (Matches(g, id, entries[0]) && c in g.nodes[entries[0].value].importedModules && KeepsEdge(h, g, id, c))
      || KeptChildOf(h, g, id, entries[1..], c)
    ensures forall x :: CompiledVia(h, g, id, entries, x) <==>
      (Matches(g, id, entries[0]) && exists c :: c in g.nodes[entries[0].value].importedModules && CompileFor(h, g, c, x))
      || CompiledVia(h, g, id, entries[1..], x)
  {
    assert forall x :: x in entries <==> x == entries[0] || x in entries[1..];
  }

  /** The outer loop over the entry set: only present entries carrying `id` are expanded. */
  function ScanEntries(h: Host, g: Graph, id: string, entries: seq<Option<NodeRef>>, acc: Expansion): (r: Expansion)
    requires Valid(h, g) && EntriesInRange(g, entries)
    requires RefsInRange(g, acc.children) && NoDup(acc.children)
    ensures RefsInRange(g, r.children) && NoDup(r.children)
    ensures acc.children <= r.children && acc.compiles <= r.compiles
    ensures r.matched <==> acc.matched || AnyMatch(g, id, entries)
    ensures forall c :: c in r.children <==> c in acc.children || KeptChildOf(h, g, id, entries, c)
    ensures forall x :: x in r.compiles <==> x in acc.compiles || CompiledVia(h, g, id, entries, x)
  {
    if entries == [] then acc
    else
      var e := entries[0];
      var acc' :=
        if Matches(g, id, e) then ScanEdges(h, g, id, g.nodes[e.value].importedModules, acc.(matched := true))
        else acc;
      EntriesSplit(h, g, id, entries);
      ScanEntries(h, g, id, entries[1..], acc')
  }

  /**
   * The entry set: at the root every node registered for the file, elsewhere
   * the single lookup by identifier, which may be absent.
   */
  function EntriesFor(g: Graph, id: string, isRoot: bool): (entries: seq<Option<NodeRef>>)
    requires forall k :: k in g.byId ==> g.byId[k] < |g.nodes|
    requires forall f :: f in g.byFile ==> RefsInRange(g, g.byFile[f])
    ensures EntriesInRange(g, entries)
    ensures isRoot ==> forall e :: e in entries <==> id in g.byFile && e.Some? && e.value in g.byFile[id]
    ensures !isRoot ==> entries == [GetModuleById(g, id)]
  {
    if !isRoot then [GetModuleById(g, id)]
    else if id in g.byFile then
      var refs := g.byFile[id];
      var entries := seq(|refs|, i requires 0 <= i < |refs| => Some(refs[i]));
      assert forall e :: e in entries ==> e.Some? && e.value in refs;
      assert RefsInRange(g, refs);
      assert EntriesInRange(g, entries) by {
        forall i | 0 <= i < |entries| ensures entries[i].Some? && entries[i].value < |g.nodes| {
          assert entries[i] == Some(refs[i]);
        }
      }
      assert forall r :: r in refs ==> Some(r) in entries by {
        forall r | r in refs ensures Some(r) in entries {
          var i :| 0 <= i < |refs| && refs[i] == r;
          assert entries[i] == Some(r);
        }
      }
      entries
    else []
  }

  /** The collection phase of a crawl call for the unwrapped identifier `id`. */
  function Expand(h: Host, g: Graph, id: string, isRoot: bool): (r: Expansion)
    requires Valid(h, g)
    ensures RefsInRange(g, r.children) && NoDup(r.children)
    ensures r.children != [] ==> r.matched
    ensures r.matched ==> id in AllIds(g)
    ensures forall x :: x in r.compiles ==> RequestsCompile(h, g, x)
  {
    var r := ScanEntries(h, g, id, EntriesFor(g, id, isRoot), Expansion(false, [], []));
    assert r.children != [] ==> r.children[0] in r.children;
    assert r.matched ==> id in AllIds(g) by {
      if r.matched {
        var e :| e in EntriesFor(g, id, isRoot) && Matches(g, id, e);
        IdInAllIds(g, e.value);
      }
    }
    r
  }

  /** A crawl call for raw identifier `id` finds an entry to expand (and so marks the identifier scanned). */
  predicate ExpandsAt(h: Host, g: Graph, id: string, isRoot: bool)
    requires Valid(h, g)
  {
    !h.isCssRequest(h.unwrapId(id)) && Expand(h, g, h.unwrapId(id), isRoot).matched
  }

  /** Outcome of a crawl: yielded nodes in order, the scanned set afterwards, compile requests in order. */
  datatype CrawlResult = CrawlResult(yielded: seq<NodeRef>, scanned: set<string>, compiles: seq<string>)

  lemma {:induction false} SubsetCard(a: set<string>, b: set<string>)
    requires a <= b
    ensures |a| <= |b|
    decreases |b|
  {
    if a != {} {
      var x :| x in a;
      SubsetCard(a - {x}, b - {x});
    }
  }

  lemma SubsetMeasure(all: set<string>, s: set<string>, s': set<string>)
    requires s <= s'
    ensures |all - s'| <= |all - s|
  {
    SubsetCard(all - s', all - s);
  }

  lemma AddMeasure(all: set<string>, s: set<string>, u: string)
    requires u in all
    ensures u !in s ==> |all - (s + {u})| < |all - s|
  {
    if u !in s {
      assert all - s == (all - (s + {u})) + {u};
    }
  }

  /**
   * `crawlGraph(loader, id, isRootFile, scanned)`. Terminates on any finite
   * snapshot: either the number of graph identifiers not yet scanned drops
   * (the crawled identifier is added before descending), or, when the
   * identifier was scanned already, the call descends only into children
   * that are not.
   */
  function Crawl(h: Host, g: Graph, id: string, isRoot: bool, scanned: set<string>): (r: CrawlResult)
    requires Valid(h, g)
    ensures scanned <= r.scanned
    ensures RefsInRange(g, r.yielded)
    ensures h.isCssRequest(h.unwrapId(id)) ==> r == CrawlResult([], scanned, [])
    ensures forall x :: x in r.compiles ==> RequestsCompile(h, g, x)
    decreases |AllIds(g) - scanned|, if h.unwrapId(id) in scanned then 2 else 1, 1, 0
  {
    var u := h.unwrapId(id);
    if h.isCssRequest(u) then CrawlResult([], scanned, [])
    else
      var ex := Expand(h, g, u, isRoot);
      // `scanned.add(id)`: adding an identifier already present changes nothing
      var scanned' := if ex.matched && u !in scanned then scanned + {u} else scanned;
      if ex.children == [] then CrawlResult([], scanned', ex.compiles)
      else
        AddMeasure(AllIds(g), scanned, u);
        var d := Descend(h, g, ex.children, scanned');
        CrawlResult(d.yielded, d.scanned, ex.compiles + d.compiles)
  }

  /**
   * The yield loop of one crawl call: each child that has an identifier not yet
   * scanned is yielded, then followed by everything its own crawl yields,
   * before the next child is looked at.
   */
  function Descend(h: Host, g: Graph, children: seq<NodeRef>, scanned: set<string>): (r: CrawlResult)
    requires Valid(h, g) && RefsInRange(g, children)
    ensures scanned <= r.scanned
    ensures RefsInRange(g, r.yielded)
    ensures forall x :: x in r.compiles ==> RequestsCompile(h, g, x)
    decreases |AllIds(g) - scanned|, 2, 0, |children|
  {
    if children == [] then CrawlResult([], scanned, [])
    else
      var c := children[0];
      var id := g.nodes[c].id;
      if !Truthy(id) || id.value in scanned then Descend(h, g, children[1..], scanned)
      else
        var sub := Crawl(h, g, id.value, false, scanned);
        SubsetMeasure(AllIds(g), scanned, sub.scanned);
        var rest := Descend(h, g, children[1..], sub.scanned);
        RefsInRangeConcat(g, [c], sub.yielded);
        RefsInRangeConcat(g, [c] + sub.yielded, rest.yielded);
        CrawlResult([c] + sub.yielded + rest.yielded, rest.scanned, sub.compiles + rest.compiles)
  }

  /** Only identifiers of the graph are ever added to the scanned set. */
  lemma {:induction false} CrawlScansGraphIds(h: Host, g: Graph, id: string, isRoot: bool, s: set<string>)
    requires Valid(h, g)
    ensures Crawl(h, g, id, isRoot, s).scanned <= s + AllIds(g)
    decreases |AllIds(g) - s|, if h.unwrapId(id) in s then 2 else 1, 1, 0
  {
    var u := h.unwrapId(id);
    if !h.isCssRequest(u) {
      var ex := Expand(h, g, u, isRoot);
      if ex.children != [] {
        var s' := if ex.matched && u !in s then s + {u} else s;
        AddMeasure(AllIds(g), s, u);
        DescendScansGraphIds(h, g, ex.children, s');
      }
    }
  }

  lemma {:induction false} DescendScansGraphIds(h: Host, g: Graph, children: seq<NodeRef>, s: set<string>)
    requires Valid(h, g) && RefsInRange(g, children)
    ensures Descend(h, g, children, s).scanned <= s + AllIds(g)
    decreases |AllIds(g) - s|, 2, 0, |children|
  {
    if children != [] {
      var c := children[0];
      var id := g.nodes[c].id;
      if !Truthy(id) || id.value in s {
        DescendScansGraphIds(h, g, children[1..], s);
      } else {
        var sub := Crawl(h, g, id.value, false, s);
        CrawlScansGraphIds(h, g, id.value, false, s);
        SubsetMeasure(AllIds(g), s, sub.scanned);
        DescendScansGraphIds(h, g, children[1..], sub.scanned);
      }
    }
  }

  /** The top-level call the dev server makes for a page: a root crawl with a fresh scanned set. */
  function CrawlPage(h: Host, g: Graph, id: string): (r: CrawlResult)
    requires Valid(h, g)
    ensures r.scanned <= AllIds(g)
    ensures h.isCssRequest(h.unwrapId(id)) ==> r == CrawlResult([], {}, [])
  {
    CrawlScansGraphIds(h, g, id, true, {});
    Crawl(h, g, id, true, {})
  }
}
