/** What a crawl promises its caller, stated over the whole crawl. */
module CrawlTheorems {
  import opened ModuleGraph
  import opened ModuleIds
  import opened Crawler
  import opened CrawlProperties

  /**
   * An identifier that is in the scanned set when the crawl ends is yielded at
   * most once, and nothing scanned before the crawl is yielded at all. Only
   * identifiers whose own crawl expands nothing (style requests, missing
   * entries) can be yielded twice.
   */
  lemma ScannedYieldedAtMostOnce(h: Host, g: Graph, id: string, isRoot: bool, s: set<string>)
    requires Valid(h, g)
    ensures var r := Crawl(h, g, id, isRoot, s);
      forall k, l :: 0 <= k < l < |r.yielded| && IdOf(g, r.yielded[k]) == IdOf(g, r.yielded[l]) ==>
        IdOf(g, r.yielded[k]) !in r.scanned
    ensures var r := Crawl(h, g, id, isRoot, s);
      forall n :: n in r.yielded ==> IdOf(g, n) !in s
  {
    var r := Crawl(h, g, id, isRoot, s);
    CrawlYieldsFresh(h, g, id, isRoot, s);
    CrawlScanned(h, g, id, isRoot, s);
    CrawlRepeats(h, g, id, isRoot, s);
    forall k, l | 0 <= k < l < |r.yielded| && IdOf(g, r.yielded[k]) == IdOf(g, r.yielded[l])
      ensures IdOf(g, r.yielded[k]) !in r.scanned
    {
      var x := IdOf(g, r.yielded[k]);
      assert r.yielded[k] in r.yielded;
      assert !Expands(h, g, x);
    }
  }

  /** The crawled identifier, raw or unwrapped, is never among the yielded modules. */
  lemma RootNeverYielded(h: Host, g: Graph, id: string, isRoot: bool, s: set<string>)
    requires Valid(h, g)
    ensures forall n :: n in Crawl(h, g, id, isRoot, s).yielded ==>
      IdOf(g, n) != h.unwrapId(id) && IdOf(g, n) != id
  {
    CrawlYieldsFresh(h, g, id, isRoot, s);
    forall n | n in Crawl(h, g, id, isRoot, s).yielded
      ensures IdOf(g, n) != h.unwrapId(id) && IdOf(g, n) != id
    {
      assert h.unwrapId(IdOf(g, n)) == IdOf(g, n);
    }
  }

  /**
   * No yielded module lacks an identifier or carries the
   * `?astroPropagatedAssets` marker; since a crawl descends only into modules
   * it has just yielded, no barrier is descended into either.
   */
  lemma BarriersNeverYielded(h: Host, g: Graph, id: string, isRoot: bool, s: set<string>)
    requires Valid(h, g)
    ensures forall n :: n in Crawl(h, g, id, isRoot, s).yielded ==>
      && g.nodes[n].id.Some? && g.nodes[n].id.value != ""
      && !IsPropagationBarrier(g.nodes[n].id.value)
  {
    CrawlYieldsFresh(h, g, id, isRoot, s);
  }

  /**
   * Every yielded module was kept by the collection phase of the crawled
   * identifier or of a module yielded before it (which is then not a style
   * request), so it is a real import, confirmed by its importer list, of that
   * module.
   */
  lemma YieldsFollowRealImports(h: Host, g: Graph, id: string, isRoot: bool, s: set<string>)
    requires Valid(h, g)
    ensures var ys := Crawl(h, g, id, isRoot, s).yielded;
      forall k :: 0 <= k < |ys| ==>
        || ys[k] in Expand(h, g, h.unwrapId(id), isRoot).children
        || exists j :: 0 <= j < k && KeptBy(h, g, ys[j], ys[k])
    ensures var ys := Crawl(h, g, id, isRoot, s).yielded;
      forall k :: 0 <= k < |ys| ==>
        || IsImportedBy(g, h.unwrapId(id), ys[k])
        || exists j :: 0 <= j < k && IsImportedBy(g, IdOf(g, ys[j]), ys[k])
  {
    var u := h.unwrapId(id);
    CrawlJustified(h, g, id, isRoot, s);
    var ys := Crawl(h, g, id, isRoot, s).yielded;
    forall k | 0 <= k < |ys|
      ensures || ys[k] in Expand(h, g, u, isRoot).children
              || exists j :: 0 <= j < k && KeptBy(h, g, ys[j], ys[k])
      ensures || IsImportedBy(g, u, ys[k])
              || exists j :: 0 <= j < k && IsImportedBy(g, IdOf(g, ys[j]), ys[k])
    {
      assert Justified(h, g, u, isRoot, ys, k);
      JustifiedIsImported(h, g, u, isRoot, ys, k);
    }
  }

  /** A kept edge is an edge the importer list confirms. */
  lemma JustifiedIsImported(h: Host, g: Graph, u: string, isRoot: bool, ys: seq<NodeRef>, k: int)
    requires Valid(h, g) && RefsInRange(g, ys) && 0 <= k < |ys| && Justified(h, g, u, isRoot, ys, k)
    ensures || IsImportedBy(g, u, ys[k])
            || exists j :: 0 <= j < k && IsImportedBy(g, IdOf(g, ys[j]), ys[k])
  {
    if ys[k] in Expand(h, g, u, isRoot).children {
      ChildrenAreKeptEdges(h, g, u, isRoot);
      assert KeepsEdge(h, g, u, ys[k]);
    } else {
      var j :| 0 <= j < k && KeptBy(h, g, ys[j], ys[k]);
      ChildrenAreKeptEdges(h, g, IdOf(g, ys[j]), false);
      assert KeepsEdge(h, g, IdOf(g, ys[j]), ys[k]);
    }
  }

  /**
   * The identifier is added to the scanned set exactly when a present entry
   * carrying the unwrapped identifier is found (and the request is not a
   * style request); without one the crawl yields nothing.
   */
  lemma ScannedIffEntryFound(h: Host, g: Graph, id: string, isRoot: bool, s: set<string>)
    requires Valid(h, g)
    requires h.unwrapId(id) !in s
    ensures var u := h.unwrapId(id);
      u in Crawl(h, g, id, isRoot, s).scanned <==>
        !h.isCssRequest(u) && exists e :: e in EntriesFor(g, u, isRoot) && Matches(g, u, e)
    ensures var u := h.unwrapId(id);
      !(exists e :: e in EntriesFor(g, u, isRoot) && Matches(g, u, e)) ==> Crawl(h, g, id, isRoot, s).yielded == []
  {
    var u := h.unwrapId(id);
    var r := Crawl(h, g, id, isRoot, s);
    CrawlYieldsFresh(h, g, id, isRoot, s);
    CrawlScanned(h, g, id, isRoot, s);
  }

  /** The scanned set only grows, and every compile request is for an eligible module. */
  lemma CrawlOnlyAdds(h: Host, g: Graph, id: string, isRoot: bool, s: set<string>)
    requires Valid(h, g)
    ensures s <= Crawl(h, g, id, isRoot, s).scanned
    ensures forall x :: x in Crawl(h, g, id, isRoot, s).compiles ==>
      && ExtName(StripQuery(x)) in {".astro", ".mdoc"} + h.markdownExtensions
      && !IsPropagationBarrier(x)
      && (x !in g.byId || !g.nodes[g.byId[x]].hasSsrModule)
  {
  }
}
