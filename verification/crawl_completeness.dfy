/**
 * What a crawl must and may yield: every module a page reaches through
 * followed import edges is yielded (or is the page itself), every yielded
 * module is reached that way, and the yield loop visits its children in
 * order, each immediately followed by its own crawl.
 */
module CrawlCompleteness {
  import opened Optional
  import opened JsString
  import opened ModuleGraph
  import opened Crawler
  import opened CrawlProperties
  import opened CrawlTheorems

  /** Node `c` has been dealt with by `r`: it was yielded, or its identifier is scanned. */
  predicate Covered(g: Graph, r: CrawlResult, c: NodeRef)
    requires c < |g.nodes|
  {
    c in r.yielded || IdOf(g, c) in r.scanned
  }

  /** Every child with an identifier is yielded by the loop or ends up scanned. */
  lemma {:induction false} DescendCovers(h: Host, g: Graph, children: seq<NodeRef>, s: set<string>)
    requires Valid(h, g) && RefsInRange(g, children)
    ensures forall c :: c in children && Truthy(g.nodes[c].id) ==> Covered(g, Descend(h, g, children, s), c)
    decreases |children|
  {
    if children != [] {
      var c := children[0];
      var id := g.nodes[c].id;
      var r := Descend(h, g, children, s);
      if !Truthy(id) || id.value in s {
        DescendCovers(h, g, children[1..], s);
        assert r == Descend(h, g, children[1..], s);
        forall x | x in children && Truthy(g.nodes[x].id) ensures Covered(g, r, x) {
          if x != c {
            assert x in children[1..];
          }
        }
      } else {
        var sub := Crawl(h, g, id.value, false, s);
        var rest := Descend(h, g, children[1..], sub.scanned);
        DescendCovers(h, g, children[1..], sub.scanned);
        assert r.yielded == [c] + sub.yielded + rest.yielded && r.scanned == rest.scanned;
        forall x | x in children && Truthy(g.nodes[x].id) ensures Covered(g, r, x) {
          if x != c {
            assert x in children[1..];
            if x in rest.yielded {
              assert x in r.yielded;
            }
          }
        }
      }
    }
  }

  /** Every module the collection phase of a crawl keeps is yielded by that crawl or ends up scanned. */
  lemma CrawlCovers(h: Host, g: Graph, id: string, isRoot: bool, s: set<string>)
    requires Valid(h, g)
    ensures !h.isCssRequest(h.unwrapId(id)) ==>
      forall c :: c in Expand(h, g, h.unwrapId(id), isRoot).children ==> Covered(g, Crawl(h, g, id, isRoot, s), c)
  {
    var u := h.unwrapId(id);
    if !h.isCssRequest(u) {
      var ex := Expand(h, g, u, isRoot);
      if ex.children != [] {
        var s' := if ex.matched && u !in s then s + {u} else s;
        ChildrenAreKeptEdges(h, g, u, isRoot);
        DescendCovers(h, g, ex.children, s');
        var d := Descend(h, g, ex.children, s');
        assert Crawl(h, g, id, isRoot, s) == CrawlResult(d.yielded, d.scanned, ex.compiles + d.compiles);
      }
    }
  }

  /** Every module in `ys` that is not a style request has all its kept children covered by `r`. */
  predicate ClosedUnder(h: Host, g: Graph, ys: seq<NodeRef>, r: CrawlResult)
    requires Valid(h, g) && RefsInRange(g, ys)
  {
    forall n :: n in ys && !h.isCssRequest(IdOf(g, n)) ==>
      forall c :: c in Expand(h, g, IdOf(g, n), false).children ==> Covered(g, r, c)
  }

  /** Coverage survives a later result that yields at least as much and scans at least as much. */
  lemma ClosedGrows(h: Host, g: Graph, ys: seq<NodeRef>, r: CrawlResult, r': CrawlResult)
    requires Valid(h, g) && RefsInRange(g, ys)
    requires (forall n :: n in r.yielded ==> n in r'.yielded) && r.scanned <= r'.scanned
    requires ClosedUnder(h, g, ys, r)
    ensures ClosedUnder(h, g, ys, r')
  {
  }

  /**
   * A crawl is closed: for every module it yields that is not a style
   * request, each module that module's own crawl keeps is yielded or scanned
   * by the time the crawl ends.
   */
  lemma {:induction false} CrawlClosed(h: Host, g: Graph, id: string, isRoot: bool, s: set<string>)
    requires Valid(h, g)
    ensures ClosedUnder(h, g, Crawl(h, g, id, isRoot, s).yielded, Crawl(h, g, id, isRoot, s))
    decreases |AllIds(g) - s|, if h.unwrapId(id) in s then 2 else 1, 1, 0
  {
    var u := h.unwrapId(id);
    if !h.isCssRequest(u) {
      var ex := Expand(h, g, u, isRoot);
      if ex.children != [] {
        var s' := if ex.matched && u !in s then s + {u} else s;
        AddMeasure(AllIds(g), s, u);
        DescendClosed(h, g, ex.children, s');
        var d := Descend(h, g, ex.children, s');
        assert Crawl(h, g, id, isRoot, s) == CrawlResult(d.yielded, d.scanned, ex.compiles + d.compiles);
        ClosedGrows(h, g, d.yielded, d, Crawl(h, g, id, isRoot, s));
      }
    }
  }

  lemma {:induction false} DescendClosed(h: Host, g: Graph, children: seq<NodeRef>, s: set<string>)
    requires Valid(h, g) && RefsInRange(g, children)
    ensures ClosedUnder(h, g, Descend(h, g, children, s).yielded, Descend(h, g, children, s))
    decreases |AllIds(g) - s|, 2, 0, |children|
  {
    if children != [] {
      var c := children[0];
      var id := g.nodes[c].id;
      if !Truthy(id) || id.value in s {
        DescendClosed(h, g, children[1..], s);
      } else {
        var x := id.value;
        var sub := Crawl(h, g, x, false, s);
        CrawlClosed(h, g, x, false, s);
        CrawlCovers(h, g, x, false, s);
        SubsetMeasure(AllIds(g), s, sub.scanned);
        DescendClosed(h, g, children[1..], sub.scanned);
        var rest := Descend(h, g, children[1..], sub.scanned);
        var r := Descend(h, g, children, s);
        assert r == CrawlResult([c] + sub.yielded + rest.yielded, rest.scanned, sub.compiles + rest.compiles);
        assert h.unwrapId(x) == x && IdOf(g, c) == x;
        ClosedAfterChild(h, g, c, sub, rest, r);
      }
    }
  }

  /** Joining one child, its own crawl and the rest of the loop keeps the loop closed. */
  lemma ClosedAfterChild(h: Host, g: Graph, c: NodeRef, sub: CrawlResult, rest: CrawlResult, r: CrawlResult)
    requires Valid(h, g) && c < |g.nodes| && RefsInRange(g, sub.yielded) && RefsInRange(g, rest.yielded)
    requires r.yielded == [c] + sub.yielded + rest.yielded && sub.scanned <= rest.scanned && r.scanned == rest.scanned
    requires !h.isCssRequest(IdOf(g, c)) ==>
      forall k :: k in Expand(h, g, IdOf(g, c), false).children ==> Covered(g, sub, k)
    requires ClosedUnder(h, g, sub.yielded, sub)
    requires ClosedUnder(h, g, rest.yielded, rest)
    ensures RefsInRange(g, r.yielded) && ClosedUnder(h, g, r.yielded, r)
  {
    RefsInRangeConcat(g, [c], sub.yielded);
    RefsInRangeConcat(g, [c] + sub.yielded, rest.yielded);
    ClosedGrows(h, g, sub.yielded, sub, r);
    ClosedGrows(h, g, rest.yielded, rest, r);
    ClosedGrows(h, g, [c], sub, r);
  }

  /** `x` is the page's own identifier or the identifier of a module the crawl yielded. */
  predicate Reached(g: Graph, r: CrawlResult, u: string, x: string)
    requires RefsInRange(g, r.yielded)
  {
    x == u || exists n :: n in r.yielded && IdOf(g, n) == x
  }

  /**
   * `p` is a chain of followed import edges out of the page `u`: its first
   * module is kept by the page's own crawl, and each later module is kept by
   * the crawl of the one before it, which is neither the page again nor a
   * style request.
   */
  predicate ImportChain(h: Host, g: Graph, u: string, p: seq<NodeRef>)
    requires Valid(h, g)
  {
    && p != []
    && RefsInRange(g, p)
    && p[0] in Expand(h, g, u, true).children
    && forall i :: 0 <= i < |p| - 1 ==> Link(h, g, u, p[i], p[i + 1])
  }

  /** One edge of a chain: `a` is not the page and its own crawl keeps `b`. */
  predicate Link(h: Host, g: Graph, u: string, a: NodeRef, b: NodeRef)
    requires Valid(h, g) && a < |g.nodes|
  {
    IdOf(g, a) != u && KeptBy(h, g, a, b)
  }

  /**
   * Completeness of a page crawl: every module at the end of a chain of
   * followed import edges from the page (real imports only, never through a
   * propagation barrier, a style request or the page itself) has its
   * identifier yielded, or is the page. `PageCrawlSound` is the converse and
   * `PageCrawlYieldsExactly` puts the two together.
   */
  lemma PageCrawlComplete(h: Host, g: Graph, id: string, p: seq<NodeRef>)
    requires Valid(h, g)
    ensures var u := h.unwrapId(id);
      !h.isCssRequest(u) && ImportChain(h, g, u, p) ==>
        forall i :: 0 <= i < |p| ==> Reached(g, CrawlPage(h, g, id), u, IdOf(g, p[i]))
  {
    var u := h.unwrapId(id);
    if !h.isCssRequest(u) && ImportChain(h, g, u, p) {
      var r := CrawlPage(h, g, id);
      CrawlCovers(h, g, id, true, {});
      CrawlClosed(h, g, id, true, {});
      CoveredIsReached(h, g, id);
      ChainReached(h, g, u, p, r, |p| - 1);
    }
  }

  /**
   * A page crawl starts from an empty scanned set, so whatever it leaves
   * scanned is the page itself or a module it yielded.
   */
  lemma CoveredIsReached(h: Host, g: Graph, id: string)
    requires Valid(h, g)
    ensures forall c: NodeRef :: c < |g.nodes| && Covered(g, CrawlPage(h, g, id), c) ==>
      Reached(g, CrawlPage(h, g, id), h.unwrapId(id), IdOf(g, c))
  {
    var r := CrawlPage(h, g, id);
    CrawlScanned(h, g, id, true, {});
    forall c: NodeRef | c < |g.nodes| && Covered(g, r, c) ensures Reached(g, r, h.unwrapId(id), IdOf(g, c)) {
      if c !in r.yielded {
        assert IdOf(g, c) in r.scanned;
      }
    }
  }

  /** Induction along the chain: each link is reached once the one before it is. */
  lemma {:induction false} ChainReached(h: Host, g: Graph, u: string, p: seq<NodeRef>, r: CrawlResult, i: nat)
    requires Valid(h, g) && RefsInRange(g, r.yielded) && ImportChain(h, g, u, p) && i < |p|
    requires forall c :: c in Expand(h, g, u, true).children ==> Covered(g, r, c)
    requires ClosedUnder(h, g, r.yielded, r)
    requires forall c: NodeRef :: c < |g.nodes| && Covered(g, r, c) ==> Reached(g, r, u, IdOf(g, c))
    ensures forall j :: 0 <= j <= i ==> Reached(g, r, u, IdOf(g, p[j]))
  {
    if i > 0 {
      ChainReached(h, g, u, p, r, i - 1);
      var prev := IdOf(g, p[i - 1]);
      assert Link(h, g, u, p[i - 1], p[i]);
      assert Reached(g, r, u, prev);
      var n :| n in r.yielded && IdOf(g, n) == prev;
      assert p[i] in Expand(h, g, IdOf(g, n), false).children;
      assert Covered(g, r, p[i]);
    } else {
      assert Covered(g, r, p[0]);
    }
  }

  /** A chain extends by one edge that the crawl of its last module keeps. */
  lemma ChainExtend(h: Host, g: Graph, u: string, p: seq<NodeRef>, c: NodeRef)
    requires Valid(h, g) && ImportChain(h, g, u, p) && c < |g.nodes|
    requires Link(h, g, u, p[|p| - 1], c)
    ensures ImportChain(h, g, u, p + [c]) && (p + [c])[|p|] == c
  {
    var q := p + [c];
    RefsInRangeConcat(g, p, [c]);
    SnocIndex(p, c);
    forall i | 0 <= i < |q| - 1 ensures Link(h, g, u, q[i], q[i + 1]) {
      if i < |p| - 1 {
        assert q[i] == p[i] && q[i + 1] == p[i + 1];
        assert Link(h, g, u, p[i], p[i + 1]);
      } else {
        assert q[i] == p[|p| - 1] && q[i + 1] == c;
      }
    }
  }

  lemma SnocIndex(p: seq<NodeRef>, c: NodeRef)
    ensures |p + [c]| == |p| + 1 && (p + [c])[|p|] == c
    ensures forall i :: 0 <= i < |p| ==> (p + [c])[i] == p[i]
  {
  }

  /** The `k`-th module a page crawl yields ends a chain of followed import edges from the page. */
  lemma {:induction false} ChainTo(h: Host, g: Graph, id: string, k: nat) returns (p: seq<NodeRef>)
    requires Valid(h, g) && k < |CrawlPage(h, g, id).yielded|
    ensures ImportChain(h, g, h.unwrapId(id), p) && p[|p| - 1] == CrawlPage(h, g, id).yielded[k]
    decreases k
  {
    var u := h.unwrapId(id);
    var ys := CrawlPage(h, g, id).yielded;
    CrawlJustified(h, g, id, true, {});
    assert Justified(h, g, u, true, ys, k);
    if ys[k] in Expand(h, g, u, true).children {
      p := [ys[k]];
    } else {
      var j :| 0 <= j < k && KeptBy(h, g, ys[j], ys[k]);
      var q := ChainTo(h, g, id, j);
      RootNeverYielded(h, g, id, true, {});
      assert ys[j] in ys && Link(h, g, u, ys[j], ys[k]);
      ChainExtend(h, g, u, q, ys[k]);
      p := q + [ys[k]];
    }
  }

  /**
   * Soundness of a page crawl: every module it yields ends a chain of
   * followed import edges from the page. The edges are real imports, kept by
   * the crawl of the module before them, never through a propagation barrier,
   * a style request or the page itself.
   */
  lemma PageCrawlSound(h: Host, g: Graph, id: string, k: nat)
    requires Valid(h, g)
    ensures var ys := CrawlPage(h, g, id).yielded;
      k < |ys| ==> exists p :: ImportChain(h, g, h.unwrapId(id), p) && p[|p| - 1] == ys[k]
  {
    if k < |CrawlPage(h, g, id).yielded| {
      var p := ChainTo(h, g, id, k);
    }
  }

  /**
   * For a page that is not a style request, an identifier other than the
   * page's is yielded exactly when some chain of followed import edges from
   * the page ends at a module with that identifier.
   */
  lemma PageCrawlYieldsExactly(h: Host, g: Graph, id: string, x: string)
    requires Valid(h, g)
    ensures var u := h.unwrapId(id);
      !h.isCssRequest(u) && x != u ==>
        ((exists n :: n in CrawlPage(h, g, id).yielded && IdOf(g, n) == x)
         <==> (exists p :: ImportChain(h, g, u, p) && IdOf(g, p[|p| - 1]) == x))
  {
    var u := h.unwrapId(id);
    var ys := CrawlPage(h, g, id).yielded;
    if !h.isCssRequest(u) && x != u {
      if n :| n in ys && IdOf(g, n) == x {
        var k :| 0 <= k < |ys| && ys[k] == n;
        var p := ChainTo(h, g, id, k);
      }
      if p :| ImportChain(h, g, u, p) && IdOf(g, p[|p| - 1]) == x {
        PageCrawlComplete(h, g, id, p);
        assert Reached(g, CrawlPage(h, g, id), u, IdOf(g, p[|p| - 1]));
      }
    }
  }

  /**
   * The yield loop over `a + b` is the loop over `a`, followed by the loop over
   * `b` started from the scanned set `a` left behind.
   */
  lemma {:induction false} DescendSplit(h: Host, g: Graph, a: seq<NodeRef>, b: seq<NodeRef>, s: set<string>)
    requires Valid(h, g) && RefsInRange(g, a) && RefsInRange(g, b)
    ensures RefsInRange(g, a + b)
    ensures var d := Descend(h, g, a, s);
      var e := Descend(h, g, b, d.scanned);
      Descend(h, g, a + b, s) == CrawlResult(d.yielded + e.yielded, e.scanned, d.compiles + e.compiles)
    decreases |a|
  {
    RefsInRangeConcat(g, a, b);
    if a == [] {
      assert a + b == b;
    } else if !Truthy(g.nodes[a[0]].id) || IdOf(g, a[0]) in s {
      DescendSplit(h, g, a[1..], b, s);
      DescendSplitSkip(h, g, a, b, s);
    } else {
      DescendSplit(h, g, a[1..], b, Crawl(h, g, IdOf(g, a[0]), false, s).scanned);
      DescendSplitVisit(h, g, a, b, s);
    }
  }

  /** The step of `DescendSplit` where the first child of `a` is skipped, given the split of the rest. */
  lemma DescendSplitSkip(h: Host, g: Graph, a: seq<NodeRef>, b: seq<NodeRef>, s: set<string>)
    requires Valid(h, g) && RefsInRange(g, a) && RefsInRange(g, b) && a != []
    requires !Truthy(g.nodes[a[0]].id) || IdOf(g, a[0]) in s
    requires RefsInRange(g, a[1..] + b)
    requires var d := Descend(h, g, a[1..], s);
      var e := Descend(h, g, b, d.scanned);
      Descend(h, g, a[1..] + b, s) == CrawlResult(d.yielded + e.yielded, e.scanned, d.compiles + e.compiles)
    ensures RefsInRange(g, a + b)
    ensures var d := Descend(h, g, a, s);
      var e := Descend(h, g, b, d.scanned);
      Descend(h, g, a + b, s) == CrawlResult(d.yielded + e.yielded, e.scanned, d.compiles + e.compiles)
  {
    RefsInRangeConcat(g, a, b);
    ConcatTail(a, b);
    assert Descend(h, g, a + b, s) == Descend(h, g, a[1..] + b, s);
    assert Descend(h, g, a, s) == Descend(h, g, a[1..], s);
  }

  /** The step of `DescendSplit` where the first child of `a` is visited, given the split of the rest. */
  lemma DescendSplitVisit(h: Host, g: Graph, a: seq<NodeRef>, b: seq<NodeRef>, s: set<string>)
    requires Valid(h, g) && RefsInRange(g, a) && RefsInRange(g, b) && a != []
    requires Truthy(g.nodes[a[0]].id) && IdOf(g, a[0]) !in s
    requires RefsInRange(g, a[1..] + b)
    requires var sub := Crawl(h, g, IdOf(g, a[0]), false, s);
      var d := Descend(h, g, a[1..], sub.scanned);
      var e := Descend(h, g, b, d.scanned);
      Descend(h, g, a[1..] + b, sub.scanned) == CrawlResult(d.yielded + e.yielded, e.scanned, d.compiles + e.compiles)
    ensures RefsInRange(g, a + b)
    ensures var d := Descend(h, g, a, s);
      var e := Descend(h, g, b, d.scanned);
      Descend(h, g, a + b, s) == CrawlResult(d.yielded + e.yielded, e.scanned, d.compiles + e.compiles)
  {
    RefsInRangeConcat(g, a, b);
    ConcatTail(a, b);
    var c := a[0];
    var sub := Crawl(h, g, IdOf(g, c), false, s);
    var d' := Descend(h, g, a[1..], sub.scanned);
    var e := Descend(h, g, b, d'.scanned);
    assert Descend(h, g, a + b, s) ==
      CrawlResult([c] + sub.yielded + (d'.yielded + e.yielded), e.scanned, sub.compiles + (d'.compiles + e.compiles));
    assert Descend(h, g, a, s) == CrawlResult([c] + sub.yielded + d'.yielded, d'.scanned, sub.compiles + d'.compiles);
    AppendAssocNodes([c] + sub.yielded, d'.yielded, e.yielded);
    AppendAssoc(sub.compiles, d'.compiles, e.compiles);
  }

  lemma ConcatTail(a: seq<NodeRef>, b: seq<NodeRef>)
    requires a != []
    ensures (a + b)[0] == a[0] && (a + b)[1..] == a[1..] + b
  {
  }

  lemma AppendAssocNodes(a: seq<NodeRef>, b: seq<NodeRef>, c: seq<NodeRef>)
    ensures a + b + c == a + (b + c)
  {
  }

  /**
   * Children are visited in order. Child `i` is yielded exactly when it has an
   * identifier not yet scanned by the children before it; then it comes right
   * after everything they yielded, immediately followed by its own crawl, and
   * the loop carries on from the scanned set that crawl leaves.
   */
  lemma DescendVisitsInOrder(h: Host, g: Graph, children: seq<NodeRef>, s: set<string>, i: nat)
    requires Valid(h, g) && RefsInRange(g, children) && i < |children|
    ensures RefsInRange(g, children[..i]) && RefsInRange(g, children[i + 1..])
    ensures var before := Descend(h, g, children[..i], s);
      var c := children[i];
      var visits := Truthy(g.nodes[c].id) && IdOf(g, c) !in before.scanned;
      var sub := Crawl(h, g, IdOf(g, c), false, before.scanned);
      var mid := if visits then sub.scanned else before.scanned;
      var after := Descend(h, g, children[i + 1..], mid);
      Descend(h, g, children, s).yielded == before.yielded + (if visits then [c] + sub.yielded else []) + after.yielded
  {
    var a := children[..i];
    var c := children[i];
    var b := children[i + 1..];
    assert RefsInRange(g, a) && RefsInRange(g, [c]) && RefsInRange(g, b);
    assert children == a + ([c] + b);
    DescendSplit(h, g, a, [c] + b, s);
    var before := Descend(h, g, a, s);
    assert ([c] + b)[0] == c && ([c] + b)[1..] == b;
    var visits := Truthy(g.nodes[c].id) && IdOf(g, c) !in before.scanned;
    var rest := Descend(h, g, [c] + b, before.scanned);
    assert Descend(h, g, children, s).yielded == before.yielded + rest.yielded;
    if visits {
      var sub := Crawl(h, g, IdOf(g, c), false, before.scanned);
      var after := Descend(h, g, b, sub.scanned);
      assert rest.yielded == [c] + sub.yielded + after.yielded;
      AppendAssocNodes(before.yielded, [c] + sub.yielded, after.yielded);
    } else {
      assert rest == Descend(h, g, b, before.scanned);
      assert before.yielded + [] == before.yielded;
    }
  }

  /** Child `i` of the loop is yielded at its turn: it has an identifier that the children before it left unscanned. */
  predicate VisitedAt(h: Host, g: Graph, children: seq<NodeRef>, s: set<string>, i: nat)
    requires Valid(h, g) && RefsInRange(g, children) && i < |children|
  {
    assert RefsInRange(g, children[..i]);
    Truthy(g.nodes[children[i]].id) && IdOf(g, children[i]) !in Descend(h, g, children[..i], s).scanned
  }

  /**
   * Children yielded at their turn come out in loop order: child `i` sits at
   * position `k`, where the children before it stop yielding, and a later
   * visited child `j` sits at a strictly later position `l`.
   */
  lemma DirectYieldsInOrder(h: Host, g: Graph, children: seq<NodeRef>, s: set<string>, i: nat, j: nat)
    requires Valid(h, g) && RefsInRange(g, children) && i < j < |children|
    requires VisitedAt(h, g, children, s, i) && VisitedAt(h, g, children, s, j)
    ensures RefsInRange(g, children[..i]) && RefsInRange(g, children[..j])
    ensures var ys := Descend(h, g, children, s).yielded;
      var k := |Descend(h, g, children[..i], s).yielded|;
      var l := |Descend(h, g, children[..j], s).yielded|;
      k < l < |ys| && ys[k] == children[i] && ys[l] == children[j]
  {
    DescendVisitsInOrder(h, g, children, s, i);
    DescendVisitsInOrder(h, g, children, s, j);
    var a := children[..i];
    var m := children[i..j];
    assert RefsInRange(g, a) && RefsInRange(g, m);
    assert a + m == children[..j];
    DescendSplit(h, g, a, m, s);
    var before := Descend(h, g, a, s);
    assert m[0] == children[i];
    assert |Descend(h, g, m, before.scanned).yielded| > 0;
  }

  /**
   * The same at the level of a whole crawl: among the children the collection
   * phase keeps, those yielded at their turn appear in the crawl's output in
   * the order of the children, which is first-discovery order.
   */
  lemma CrawlYieldsChildrenInOrder(h: Host, g: Graph, id: string, isRoot: bool, s: set<string>, i: nat, j: nat)
    requires Valid(h, g)
    ensures var u := h.unwrapId(id);
      var cs := Expand(h, g, u, isRoot).children;
      var s0 := s + {u};
      !h.isCssRequest(u) && i < j < |cs| && VisitedAt(h, g, cs, s0, i) && VisitedAt(h, g, cs, s0, j) ==>
        RefsInRange(g, cs[..i]) && RefsInRange(g, cs[..j]) &&
        var ys := Crawl(h, g, id, isRoot, s).yielded;
        var k := |Descend(h, g, cs[..i], s0).yielded|;
        var l := |Descend(h, g, cs[..j], s0).yielded|;
        k < l < |ys| && ys[k] == cs[i] && ys[l] == cs[j]
  {
    var u := h.unwrapId(id);
    var ex := Expand(h, g, u, isRoot);
    var s0 := s + {u};
    if !h.isCssRequest(u) && i < j < |ex.children| && VisitedAt(h, g, ex.children, s0, i) && VisitedAt(h, g, ex.children, s0, j) {
      assert ex.matched;
      assert (if ex.matched && u !in s then s + {u} else s) == s0;
      assert Crawl(h, g, id, isRoot, s).yielded == Descend(h, g, ex.children, s0).yielded;
      DirectYieldsInOrder(h, g, ex.children, s0, i, j);
    }
  }
}
