/**
 * Small module graphs on which the crawl's outcome is worked out exactly.
 * Every node already has its server-rendered module, so no compile is ever
 * requested.
 */
module CrawlExamples {
  import opened Optional
  import opened JsString
  import opened ModuleGraph
  import opened Crawler

  /** Identifiers are already unwrapped; only `s.css` is a style request. */
  function ExampleHost(): Host {
    Host(s => s, s => s == "s.css", {})
  }

  /** A module whose node already has a server-rendered module is not compiled again. */
  lemma AlreadyCompiled(h: Host, g: Graph, id: string)
    requires Valid(h, g)
    requires id in g.byId && g.nodes[g.byId[id]].hasSsrModule
    ensures !RequestsCompile(h, g, id)
  {
  }

  /** Visiting a followed edge to a node that is not compiled adds just that node. */
  lemma ScanKeptEdge(h: Host, g: Graph, parent: string, c: NodeRef, acc: Expansion)
    requires Valid(h, g) && c < |g.nodes|
    requires RefsInRange(g, acc.children) && NoDup(acc.children)
    requires KeepsEdge(h, g, parent, c) && !RequestsCompile(h, g, g.nodes[c].id.value)
    ensures ScanEdge(h, g, parent, c, acc) == acc.(children := AddUnique(acc.children, c))
  {
  }

  /** A lookup that finds a single node carrying `id` expands to what scanning that node's imports collects. */
  lemma ExpandOneEntry(h: Host, g: Graph, id: string, isRoot: bool, n: NodeRef, ex: Expansion)
    requires Valid(h, g) && n < |g.nodes|
    requires EntriesFor(g, id, isRoot) == [Some(n)] && g.nodes[n].id == Some(id)
    requires ScanEdges(h, g, id, g.nodes[n].importedModules, Expansion(true, [], [])) == ex
    ensures Expand(h, g, id, isRoot) == ex
  {
    assert Matches(g, id, Some(n));
    assert Expansion(false, [], []).(matched := true) == Expansion(true, [], []);
    assert ScanEntries(h, g, id, [Some(n)], Expansion(false, [], [])) == ScanEntries(h, g, id, [], ex);
  }

  /** Scanning one followed edge to a node that is not compiled collects just that node. */
  lemma ScanOneEdge(h: Host, g: Graph, id: string, c: NodeRef)
    requires Valid(h, g) && c < |g.nodes|
    requires KeepsEdge(h, g, id, c) && !RequestsCompile(h, g, g.nodes[c].id.value)
    ensures ScanEdges(h, g, id, [c], Expansion(true, [], [])) == Expansion(true, [c], [])
  {
    var acc := Expansion(true, [], []);
    ScanKeptEdge(h, g, id, c, acc);
    assert ScanEdges(h, g, id, [c], acc) == ScanEdges(h, g, id, [], ScanEdge(h, g, id, c, acc));
  }

  /** The loop over two edges visits them in order. */
  lemma ScanEdgesPair(h: Host, g: Graph, id: string, c1: NodeRef, c2: NodeRef, acc: Expansion)
    requires Valid(h, g) && c1 < |g.nodes| && c2 < |g.nodes|
    requires RefsInRange(g, acc.children) && NoDup(acc.children)
    ensures ScanEdges(h, g, id, [c1, c2], acc) == ScanEdge(h, g, id, c2, ScanEdge(h, g, id, c1, acc))
  {
    var one := ScanEdge(h, g, id, c1, acc);
    assert ScanEdges(h, g, id, [c2], one) == ScanEdges(h, g, id, [], ScanEdge(h, g, id, c2, one));
    assert [c1, c2][1..] == [c2];
  }

  /** Two edges, each collected by its own visit, are collected in order by the loop. */
  lemma ScanTwo(h: Host, g: Graph, id: string, c1: NodeRef, c2: NodeRef)
    requires Valid(h, g) && c1 < |g.nodes| && c2 < |g.nodes|
    requires ScanEdge(h, g, id, c1, Expansion(true, [], [])) == Expansion(true, [c1], [])
    requires ScanEdge(h, g, id, c2, Expansion(true, [c1], [])) == Expansion(true, [c1, c2], [])
    ensures ScanEdges(h, g, id, [c1, c2], Expansion(true, [], [])) == Expansion(true, [c1, c2], [])
  {
    ScanEdgesPair(h, g, id, c1, c2, Expansion(true, [], []));
  }

  /** One step of `Crawl` for an identifier whose entry expands to some children. */
  lemma CrawlDescends(h: Host, g: Graph, id: string, isRoot: bool, s: set<string>, ex: Expansion)
    requires Valid(h, g) && !h.isCssRequest(h.unwrapId(id))
    requires Expand(h, g, h.unwrapId(id), isRoot) == ex && ex.matched && ex.children != []
    ensures RefsInRange(g, ex.children)
    ensures Crawl(h, g, id, isRoot, s) ==
      var d := Descend(h, g, ex.children, s + {h.unwrapId(id)});
      CrawlResult(d.yielded, d.scanned, ex.compiles + d.compiles)
  {
    var u := h.unwrapId(id);
    assert (if ex.matched && u !in s then s + {u} else s) == s + {u};
  }

  /** A page crawl whose page expands to some children is the loop over them, with only the page scanned. */
  lemma PageDescends(h: Host, g: Graph, p: string, ex: Expansion)
    requires Valid(h, g) && h.unwrapId(p) == p && !h.isCssRequest(p)
    requires Expand(h, g, p, true) == ex && ex.matched && ex.children != []
    ensures RefsInRange(g, ex.children)
    ensures CrawlPage(h, g, p) ==
      var d := Descend(h, g, ex.children, {p});
      CrawlResult(d.yielded, d.scanned, ex.compiles + d.compiles)
  {
    var empty: set<string> := {};
    assert empty + {p} == {p};
    CrawlDescends(h, g, p, true, empty, ex);
  }

  /** One step of `Descend` past a child that is already scanned. */
  lemma DescendSkips(h: Host, g: Graph, children: seq<NodeRef>, s: set<string>)
    requires Valid(h, g) && RefsInRange(g, children) && children != []
    requires Truthy(g.nodes[children[0]].id) && g.nodes[children[0]].id.value in s
    ensures Descend(h, g, children, s) == Descend(h, g, children[1..], s)
  {
  }

  /** One step of `Descend` into a child that is not scanned yet. */
  lemma DescendVisits(h: Host, g: Graph, children: seq<NodeRef>, s: set<string>)
    requires Valid(h, g) && RefsInRange(g, children) && children != []
    requires Truthy(g.nodes[children[0]].id) && g.nodes[children[0]].id.value !in s
    ensures Descend(h, g, children, s) ==
      var sub := Crawl(h, g, g.nodes[children[0]].id.value, false, s);
      var rest := Descend(h, g, children[1..], sub.scanned);
      CrawlResult([children[0]] + sub.yielded + rest.yielded, rest.scanned, sub.compiles + rest.compiles)
  {
  }

  /** `a` imports `b` and `b` imports `a`; the page is the file `a`. */
  function CycleGraph(): Graph {
    Graph(
      [ ModuleNode(Some("a"), [1], [1], true),
        ModuleNode(Some("b"), [0], [0], true) ],
      map["a" := 0, "b" := 1],
      map["a" := [0]])
  }

  lemma CycleGraphValid()
    ensures Valid(ExampleHost(), CycleGraph())
  {
    var g := CycleGraph();
    forall n | 0 <= n < |g.nodes|
      ensures RefsInRange(g, g.nodes[n].importedModules) && RefsInRange(g, g.nodes[n].importers)
    {
      assert n == 0 || n == 1;
    }
  }

  /** The page `a` (node 0, crawled as the root) expands to `b`, and `b` (node 1) expands back to `a`. */
  lemma CycleExpansion(id: string, n: NodeRef, c: NodeRef)
    requires (id, n, c) == ("a", 0, 1) || (id, n, c) == ("b", 1, 0)
    ensures Valid(ExampleHost(), CycleGraph())
    ensures Expand(ExampleHost(), CycleGraph(), id, n == 0) == Expansion(true, [c], [])
  {
    var h := ExampleHost();
    var g := CycleGraph();
    CycleEntry(id, n, c);
    ScanOneEdge(h, g, id, c);
    ExpandOneEntry(h, g, id, n == 0, n, Expansion(true, [c], []));
  }

  /** The single entry each identifier of the cycle is looked up by, and its one followed, compiled edge. */
  lemma CycleEntry(id: string, n: NodeRef, c: NodeRef)
    requires (id, n, c) == ("a", 0, 1) || (id, n, c) == ("b", 1, 0)
    ensures Valid(ExampleHost(), CycleGraph()) && n < 2 && c < 2
    ensures EntriesFor(CycleGraph(), id, n == 0) == [Some(n)] && CycleGraph().nodes[n].id == Some(id)
    ensures CycleGraph().nodes[n].importedModules == [c]
    ensures KeepsEdge(ExampleHost(), CycleGraph(), id, c)
    ensures !RequestsCompile(ExampleHost(), CycleGraph(), CycleGraph().nodes[c].id.value)
  {
    var h := ExampleHost();
    var g := CycleGraph();
    CycleGraphValid();
    assert KeepsEdge(h, g, id, c) by {
      assert g.nodes[g.nodes[c].importers[0]].id == Some(id);
    }
    AlreadyCompiled(h, g, g.nodes[c].id.value);
  }

  /** A crawl whose single child is already scanned yields nothing. */
  lemma CrawlIntoScanned(h: Host, g: Graph, id: string, isRoot: bool, s: set<string>, c: NodeRef)
    requires Valid(h, g) && c < |g.nodes| && !h.isCssRequest(h.unwrapId(id))
    requires Expand(h, g, h.unwrapId(id), isRoot) == Expansion(true, [c], [])
    requires Truthy(g.nodes[c].id) && g.nodes[c].id.value in s + {h.unwrapId(id)}
    ensures Crawl(h, g, id, isRoot, s) == CrawlResult([], s + {h.unwrapId(id)}, [])
  {
    CrawlDescends(h, g, id, isRoot, s, Expansion(true, [c], []));
    DescendSkips(h, g, [c], s + {h.unwrapId(id)});
    assert [c][1..] == [];
  }

  /** A loop over one child that is not scanned yet yields it, then what its crawl yields. */
  lemma DescendOne(h: Host, g: Graph, c: NodeRef, s: set<string>, sub: CrawlResult)
    requires Valid(h, g) && c < |g.nodes|
    requires Truthy(g.nodes[c].id) && g.nodes[c].id.value !in s
    requires Crawl(h, g, g.nodes[c].id.value, false, s) == sub && sub.compiles == []
    ensures Descend(h, g, [c], s) == CrawlResult([c] + sub.yielded, sub.scanned, [])
  {
    DescendVisits(h, g, [c], s);
    assert [c][1..] == [];
    assert [c] + sub.yielded + [] == [c] + sub.yielded;
  }

  /**
   * Two modules importing each other, crawled from the page `a`: `b` is
   * yielded once, and its crawl stops at `a`, which the page's crawl has
   * already scanned.
   */
  lemma MutualImportCrawl(h: Host, g: Graph, a: string, b: string, na: NodeRef, nb: NodeRef)
    requires Valid(h, g) && na < |g.nodes| && nb < |g.nodes| && a != "" && b != "" && a != b
    requires g.nodes[na].id == Some(a) && g.nodes[nb].id == Some(b)
    requires h.unwrapId(a) == a && h.unwrapId(b) == b && !h.isCssRequest(a) && !h.isCssRequest(b)
    requires Expand(h, g, a, true) == Expansion(true, [nb], [])
    requires Expand(h, g, b, false) == Expansion(true, [na], [])
    ensures CrawlPage(h, g, a) == CrawlResult([nb], {a, b}, [])
  {
    MutualDescend(h, g, a, b, na, nb);
    PageDescends(h, g, a, Expansion(true, [nb], []));
  }

  /** The page's loop over its one child `b`: `b` is yielded, and its crawl stops at the scanned `a`. */
  lemma MutualDescend(h: Host, g: Graph, a: string, b: string, na: NodeRef, nb: NodeRef)
    requires Valid(h, g) && na < |g.nodes| && nb < |g.nodes| && a != "" && b != "" && a != b
    requires g.nodes[na].id == Some(a) && g.nodes[nb].id == Some(b)
    requires h.unwrapId(b) == b && !h.isCssRequest(b)
    requires Expand(h, g, b, false) == Expansion(true, [na], [])
    ensures Descend(h, g, [nb], {a}) == CrawlResult([nb], {a, b}, [])
  {
    assert {a} + {b} == {a, b};
    CrawlIntoScanned(h, g, b, false, {a}, na);
    DescendOne(h, g, nb, {a}, CrawlResult([], {a, b}, []));
  }

  /** An import cycle is followed once around: the page's own module is never yielded. */
  lemma CycleYieldsOnce()
    ensures Valid(ExampleHost(), CycleGraph())
    ensures CrawlPage(ExampleHost(), CycleGraph(), "a") == CrawlResult([1], {"a", "b"}, [])
  {
    var h := ExampleHost();
    CycleExpansion("a", 0, 1);
    CycleExpansion("b", 1, 0);
    assert h.unwrapId("a") == "a" && !h.isCssRequest("a");
    assert h.unwrapId("b") == "b" && !h.isCssRequest("b");
    MutualImportCrawl(h, CycleGraph(), "a", "b", 0, 1);
  }

  /** A crawl with a single followed child that is not scanned yet yields it, then what its crawl yields. */
  lemma CrawlOneChild(h: Host, g: Graph, id: string, isRoot: bool, s: set<string>, c: NodeRef, sub: CrawlResult)
    requires Valid(h, g) && c < |g.nodes| && !h.isCssRequest(h.unwrapId(id))
    requires Expand(h, g, h.unwrapId(id), isRoot) == Expansion(true, [c], [])
    requires Truthy(g.nodes[c].id) && g.nodes[c].id.value !in s + {h.unwrapId(id)}
    requires Crawl(h, g, g.nodes[c].id.value, false, s + {h.unwrapId(id)}) == sub && sub.compiles == []
    ensures Crawl(h, g, id, isRoot, s) == CrawlResult([c] + sub.yielded, sub.scanned, [])
  {
    CrawlDescends(h, g, id, isRoot, s, Expansion(true, [c], []));
    DescendOne(h, g, c, s + {h.unwrapId(id)}, sub);
  }

  /** A loop over two children, neither scanned when its turn comes, yields each followed by its crawl. */
  lemma DescendTwo(h: Host, g: Graph, c1: NodeRef, c2: NodeRef, x: string, y: string,
                   s: set<string>, ys1: seq<NodeRef>, s1: set<string>, ys2: seq<NodeRef>, s2: set<string>)
    requires Valid(h, g) && c1 < |g.nodes| && c2 < |g.nodes|
    requires g.nodes[c1].id == Some(x) && x != "" && x !in s
    requires Crawl(h, g, x, false, s) == CrawlResult(ys1, s1, [])
    requires g.nodes[c2].id == Some(y) && y != "" && y !in s1
    requires Crawl(h, g, y, false, s1) == CrawlResult(ys2, s2, [])
    ensures Descend(h, g, [c1, c2], s) == CrawlResult([c1] + ys1 + ([c2] + ys2), s2, [])
  {
    DescendVisits(h, g, [c1, c2], s);
    assert [c1, c2][1..] == [c2];
    DescendOne(h, g, c2, s1, CrawlResult(ys2, s2, []));
  }

  /** `x` is its own unwrapped identifier, not a style request, and its one followed import is the style request `st`. */
  predicate ImportsOnlyStyle(h: Host, g: Graph, x: string, st: string, ns: NodeRef)
    requires Valid(h, g)
  {
    && ns < |g.nodes| && g.nodes[ns].id == Some(st) && st != ""
    && h.unwrapId(x) == x && !h.isCssRequest(x) && h.unwrapId(st) == st && h.isCssRequest(st)
    && Expand(h, g, x, false) == Expansion(true, [ns], [])
  }

  /** A module whose only followed import is a style request yields that request and scans only itself. */
  lemma CrawlIntoStyle(h: Host, g: Graph, x: string, s: set<string>, st: string, ns: NodeRef)
    requires Valid(h, g) && ImportsOnlyStyle(h, g, x, st, ns) && st !in s + {x}
    ensures Crawl(h, g, x, false, s) == CrawlResult([ns], s + {x}, [])
  {
    assert Crawl(h, g, st, false, s + {x}) == CrawlResult([], s + {x}, []);
    CrawlOneChild(h, g, x, false, s, ns, CrawlResult([], s + {x}, []));
  }

  lemma ThreeSingletons(a: string, b: string, c: string)
    ensures {a} + {b} + {c} == {a, b, c}
  {
  }

  lemma FourSingletons(a: NodeRef, b: NodeRef, c: NodeRef, d: NodeRef)
    ensures [a] + [b] + ([c] + [d]) == [a, b, c, d]
  {
  }

  /** A loop over two children that each yield one more node, neither scanned when its turn comes. */
  lemma StyleBranches(h: Host, g: Graph, x: string, y: string, nx: NodeRef, ny: NodeRef, ns: NodeRef,
                      s0: set<string>, s1: set<string>, s2: set<string>)
    requires Valid(h, g) && nx < |g.nodes| && ny < |g.nodes|
    requires g.nodes[nx].id == Some(x) && x != "" && x !in s0
    requires Crawl(h, g, x, false, s0) == CrawlResult([ns], s1, [])
    requires g.nodes[ny].id == Some(y) && y != "" && y !in s1
    requires Crawl(h, g, y, false, s1) == CrawlResult([ns], s2, [])
    ensures Descend(h, g, [nx, ny], s0) == CrawlResult([nx, ns, ny, ns], s2, [])
  {
    DescendTwo(h, g, nx, ny, x, y, s0, [ns], s1, [ns], s2);
    FourSingletons(nx, ns, ny, ns);
  }

  /**
   * A page importing `x` and `y`, which both import the style request `st`:
   * `st` is yielded twice, once under each importer, because a style request
   * is never added to the scanned set.
   */
  lemma SharedStyleCrawl(h: Host, g: Graph, p: string, x: string, y: string, st: string, nx: NodeRef, ny: NodeRef, ns: NodeRef)
    requires Valid(h, g) && nx < |g.nodes| && ny < |g.nodes| && ns < |g.nodes|
    requires p != x && p != y && x != y && st != p && st != x && st != y && x != "" && y != "" && st != ""
    requires g.nodes[nx].id == Some(x) && g.nodes[ny].id == Some(y) && g.nodes[ns].id == Some(st)
    requires h.unwrapId(p) == p && h.unwrapId(x) == x && h.unwrapId(y) == y && h.unwrapId(st) == st
    requires !h.isCssRequest(p) && !h.isCssRequest(x) && !h.isCssRequest(y) && h.isCssRequest(st)
    requires Expand(h, g, p, true) == Expansion(true, [nx, ny], [])
    requires Expand(h, g, x, false) == Expansion(true, [ns], [])
    requires Expand(h, g, y, false) == Expansion(true, [ns], [])
    ensures CrawlPage(h, g, p) == CrawlResult([nx, ns, ny, ns], {p, x, y}, [])
  {
    assert ImportsOnlyStyle(h, g, x, st, ns) && ImportsOnlyStyle(h, g, y, st, ns);
    StyleDescend(h, g, {p}, x, y, st, nx, ny, ns);
    PageDescends(h, g, p, Expansion(true, [nx, ny], []));
    ThreeSingletons(p, x, y);
  }

  /** A loop over `x` and `y`, neither scanned yet: each is yielded, followed by the style request its crawl yields. */
  lemma StyleDescend(h: Host, g: Graph, s: set<string>, x: string, y: string, st: string, nx: NodeRef, ny: NodeRef, ns: NodeRef)
    requires Valid(h, g) && nx < |g.nodes| && ny < |g.nodes|
    requires x !in s && y !in s && st !in s && x != y && st != x && st != y && x != "" && y != ""
    requires g.nodes[nx].id == Some(x) && g.nodes[ny].id == Some(y)
    requires ImportsOnlyStyle(h, g, x, st, ns) && ImportsOnlyStyle(h, g, y, st, ns)
    ensures Descend(h, g, [nx, ny], s) == CrawlResult([nx, ns, ny, ns], s + {x} + {y}, [])
  {
    var s1 := s + {x};
    CrawlIntoStyle(h, g, x, s, st, ns);
    CrawlIntoStyle(h, g, y, s1, st, ns);
    StyleBranches(h, g, x, y, nx, ny, ns, s, s1, s1 + {y});
  }

  /** The page `p` imports `x` and `y`; both import the stylesheet `s.css`. */
  function StyleGraph(): Graph {
    Graph(
      [ ModuleNode(Some("p"), [1, 2], [], true),
        ModuleNode(Some("x"), [3], [0], true),
        ModuleNode(Some("y"), [3], [0], true),
        ModuleNode(Some("s.css"), [], [1, 2], true) ],
      map["p" := 0, "x" := 1, "y" := 2, "s.css" := 3],
      map["p" := [0]])
  }

  lemma StyleGraphValid()
    ensures Valid(ExampleHost(), StyleGraph())
  {
    var g := StyleGraph();
    forall n | 0 <= n < |g.nodes|
      ensures RefsInRange(g, g.nodes[n].importedModules) && RefsInRange(g, g.nodes[n].importers)
    {
      assert n == 0 || n == 1 || n == 2 || n == 3;
    }
  }

  /** The page's edges to `x` (node 1) and `y` (node 2) are followed, and neither is compiled. */
  lemma StylePageEdge(n: NodeRef, acc: Expansion)
    requires n == 1 || n == 2
    requires RefsInRange(StyleGraph(), acc.children) && NoDup(acc.children)
    ensures Valid(ExampleHost(), StyleGraph())
    ensures ScanEdge(ExampleHost(), StyleGraph(), "p", n, acc) == acc.(children := AddUnique(acc.children, n))
  {
    var h := ExampleHost();
    var g := StyleGraph();
    StyleGraphValid();
    assert KeepsEdge(h, g, "p", n) by {
      assert g.nodes[g.nodes[n].importers[0]].id == Some("p");
    }
    AlreadyCompiled(h, g, g.nodes[n].id.value);
    ScanKeptEdge(h, g, "p", n, acc);
  }

  /** The page file is registered under the single node 0. */
  lemma StylePageEntries()
    ensures Valid(ExampleHost(), StyleGraph())
    ensures EntriesFor(StyleGraph(), "p", true) == [Some(0)]
  {
    StyleGraphValid();
  }

  lemma StylePageFirstEdge()
    ensures Valid(ExampleHost(), StyleGraph())
    ensures ScanEdge(ExampleHost(), StyleGraph(), "p", 1, Expansion(true, [], [])) == Expansion(true, [1], [])
  {
    StylePageEdge(1, Expansion(true, [], []));
    assert AddUnique([], 1) == [1];
  }

  lemma StylePageSecondEdge()
    ensures Valid(ExampleHost(), StyleGraph())
    ensures ScanEdge(ExampleHost(), StyleGraph(), "p", 2, Expansion(true, [1], [])) == Expansion(true, [1, 2], [])
  {
    StylePageEdge(2, Expansion(true, [1], []));
    assert AddUnique([1], 2) == [1, 2];
  }

  /** The page's import edges, scanned in order, collect `x` then `y`. */
  lemma StylePageScan()
    ensures Valid(ExampleHost(), StyleGraph())
    ensures ScanEdges(ExampleHost(), StyleGraph(), "p", [1, 2], Expansion(true, [], [])) == Expansion(true, [1, 2], [])
  {
    StylePageFirstEdge();
    StylePageSecondEdge();
    ScanTwo(ExampleHost(), StyleGraph(), "p", 1, 2);
  }

  lemma StylePageExpansion()
    ensures Valid(ExampleHost(), StyleGraph())
    ensures Expand(ExampleHost(), StyleGraph(), "p", true) == Expansion(true, [1, 2], [])
  {
    StylePageEntries();
    StylePageScan();
    ExpandOneEntry(ExampleHost(), StyleGraph(), "p", true, 0, Expansion(true, [1, 2], []));
  }

  /** The edges from `x` (node 1) and `y` (node 2) to the stylesheet, node 3, are followed. */
  lemma StyleModuleScan(id: string, n: NodeRef)
    requires (id, n) == ("x", 1) || (id, n) == ("y", 2)
    ensures Valid(ExampleHost(), StyleGraph())
    ensures ScanEdges(ExampleHost(), StyleGraph(), id, [3], Expansion(true, [], [])) == Expansion(true, [3], [])
  {
    var h := ExampleHost();
    var g := StyleGraph();
    StyleGraphValid();
    assert KeepsEdge(h, g, id, 3) by {
      assert g.nodes[g.nodes[3].importers[n - 1]].id == Some(id);
    }
    AlreadyCompiled(h, g, "s.css");
    ScanOneEdge(h, g, id, 3);
  }

  /** `x` and `y` are looked up by identifier. */
  lemma StyleModuleEntries(id: string, n: NodeRef)
    requires (id, n) == ("x", 1) || (id, n) == ("y", 2)
    ensures Valid(ExampleHost(), StyleGraph())
    ensures EntriesFor(StyleGraph(), id, false) == [Some(n)] && StyleGraph().nodes[n].id == Some(id)
  {
    StyleGraphValid();
  }

  /** `x` and `y` each expand to the stylesheet. */
  lemma StyleModuleExpansion(id: string, n: NodeRef)
    requires (id, n) == ("x", 1) || (id, n) == ("y", 2)
    ensures Valid(ExampleHost(), StyleGraph())
    ensures Expand(ExampleHost(), StyleGraph(), id, false) == Expansion(true, [3], [])
  {
    StyleModuleEntries(id, n);
    StyleModuleScan(id, n);
    ExpandOneEntry(ExampleHost(), StyleGraph(), id, false, n, Expansion(true, [3], []));
  }

  /** A stylesheet shared by two imported modules is yielded once under each of them. */
  lemma SharedStyleYieldedTwice()
    ensures Valid(ExampleHost(), StyleGraph())
    ensures CrawlPage(ExampleHost(), StyleGraph(), "p") == CrawlResult([1, 3, 2, 3], {"p", "x", "y"}, [])
  {
    var h := ExampleHost();
    StylePageExpansion();
    StyleModuleExpansion("x", 1);
    StyleModuleExpansion("y", 2);
    assert h.unwrapId("p") == "p" && !h.isCssRequest("p");
    assert h.unwrapId("x") == "x" && !h.isCssRequest("x");
    assert h.unwrapId("y") == "y" && !h.isCssRequest("y");
    assert h.unwrapId("s.css") == "s.css" && h.isCssRequest("s.css");
    SharedStyleCrawl(h, StyleGraph(), "p", "x", "y", "s.css", 1, 2, 3);
  }
}
