/**
 * Properties of a whole crawl, proved by induction that follows the mutual
 * recursion of `Crawl` and `Descend`.
 */
module CrawlProperties {
  import opened Optional
  import opened JsString
  import opened ModuleGraph
  import opened ModuleIds
  import opened Crawler

  /** The identifier of node `n`, or "" when it has none. */
  function IdOf(g: Graph, n: NodeRef): string
    requires n < |g.nodes|
  {
    if g.nodes[n].id.Some? then g.nodes[n].id.value else ""
  }

  /** A non-root crawl of `x` finds the entry for `x` and marks it scanned. */
  predicate Expands(h: Host, g: Graph, x: string)
    requires Valid(h, g)
  {
    ExpandsAt(h, g, x, false)
  }

  /** Every node in `ys` is in the arena, has an identifier, is no barrier and was not scanned in `s`. */
  predicate FreshYields(g: Graph, ys: seq<NodeRef>, s: set<string>) {
    forall n :: n in ys ==>
      n < |g.nodes| && Truthy(g.nodes[n].id) && IdOf(g, n) !in s && !IsPropagationBarrier(IdOf(g, n))
  }

  predicate NoBarriers(g: Graph, children: seq<NodeRef>) {
    forall c :: c in children ==> c < |g.nodes| && !IsPropagationBarrier(IdOf(g, c))
  }

  /** Every child the collection phase keeps is a real import of `id` and no barrier. */
  lemma ChildrenAreKeptEdges(h: Host, g: Graph, id: string, isRoot: bool)
    requires Valid(h, g)
    ensures forall c :: c in Expand(h, g, id, isRoot).children ==> KeepsEdge(h, g, id, c)
    ensures NoBarriers(g, Expand(h, g, id, isRoot).children)
  {
  }

  /**
   * Everything a crawl yields has a non-empty identifier, is no barrier and
   * was not scanned when the crawl began; if the crawl expanded its own
   * identifier, that identifier is scanned afterwards and never yielded.
   */
  lemma {:induction false} CrawlYieldsFresh(h: Host, g: Graph, id: string, isRoot: bool, s: set<string>)
    requires Valid(h, g)
    ensures FreshYields(g, Crawl(h, g, id, isRoot, s).yielded, s)
    ensures ExpandsAt(h, g, id, isRoot) ==> h.unwrapId(id) in Crawl(h, g, id, isRoot, s).scanned
    ensures ExpandsAt(h, g, id, isRoot) ==> FreshYields(g, Crawl(h, g, id, isRoot, s).yielded, s + {h.unwrapId(id)})
    ensures !ExpandsAt(h, g, id, isRoot) ==> Crawl(h, g, id, isRoot, s).yielded == []
    decreases |AllIds(g) - s|, if h.unwrapId(id) in s then 2 else 1, 1, 0
  {
    var u := h.unwrapId(id);
    if !h.isCssRequest(u) {
      var ex := Expand(h, g, u, isRoot);
      if ex.children != [] {
        var s' := if ex.matched && u !in s then s + {u} else s;
        assert s' == s + {u};
        AddMeasure(AllIds(g), s, u);
        ChildrenAreKeptEdges(h, g, u, isRoot);
        DescendYieldsFresh(h, g, ex.children, s');
      }
    }
  }

  lemma {:induction false} DescendYieldsFresh(h: Host, g: Graph, children: seq<NodeRef>, s: set<string>)
    requires Valid(h, g) && RefsInRange(g, children)
    requires NoBarriers(g, children)
    ensures FreshYields(g, Descend(h, g, children, s).yielded, s)
    decreases |AllIds(g) - s|, 2, 0, |children|
  {
    if children != [] {
      var c := children[0];
      var id := g.nodes[c].id;
      if !Truthy(id) || id.value in s {
        DescendYieldsFresh(h, g, children[1..], s);
      } else {
        var sub := Crawl(h, g, id.value, false, s);
        CrawlYieldsFresh(h, g, id.value, false, s);
        SubsetMeasure(AllIds(g), s, sub.scanned);
        DescendYieldsFresh(h, g, children[1..], sub.scanned);
        var rest := Descend(h, g, children[1..], sub.scanned);
        assert Descend(h, g, children, s).yielded == [c] + sub.yielded + rest.yielded;
      }
    }
  }

  /**
   * The scanned set grows by exactly: the crawled identifier when its entry is
   * found, and the identifiers of yielded nodes whose own crawl found their entry.
   */
  predicate ScannedAccounted(h: Host, g: Graph, s: set<string>, extra: set<string>, ys: seq<NodeRef>, s': set<string>)
    requires Valid(h, g) && RefsInRange(g, ys)
  {
    && (forall x :: x in s' ==> x in s || x in extra || exists n :: n in ys && IdOf(g, n) == x && Expands(h, g, x))
    && (forall n :: n in ys && Expands(h, g, IdOf(g, n)) ==> IdOf(g, n) in s')
  }

  lemma {:induction false} CrawlScanned(h: Host, g: Graph, id: string, isRoot: bool, s: set<string>)
    requires Valid(h, g)
    ensures ScannedAccounted(h, g, s, if ExpandsAt(h, g, id, isRoot) then {h.unwrapId(id)} else {},
                             Crawl(h, g, id, isRoot, s).yielded, Crawl(h, g, id, isRoot, s).scanned)
    decreases |AllIds(g) - s|, if h.unwrapId(id) in s then 2 else 1, 2, 0
  {
    var u := h.unwrapId(id);
    if !h.isCssRequest(u) && Expand(h, g, u, isRoot).children != [] {
      CrawlScannedDescending(h, g, id, isRoot, s);
    }
  }

  lemma {:induction false} CrawlScannedDescending(h: Host, g: Graph, id: string, isRoot: bool, s: set<string>)
    requires Valid(h, g)
    requires !h.isCssRequest(h.unwrapId(id)) && Expand(h, g, h.unwrapId(id), isRoot).children != []
    ensures ScannedAccounted(h, g, s, if ExpandsAt(h, g, id, isRoot) then {h.unwrapId(id)} else {},
                             Crawl(h, g, id, isRoot, s).yielded, Crawl(h, g, id, isRoot, s).scanned)
    decreases |AllIds(g) - s|, if h.unwrapId(id) in s then 2 else 1, 1, 0
  {
    var u := h.unwrapId(id);
    var ex := Expand(h, g, u, isRoot);
    var s' := if ex.matched && u !in s then s + {u} else s;
    AddMeasure(AllIds(g), s, u);
    DescendScanned(h, g, ex.children, s');
    var d := Descend(h, g, ex.children, s');
    assert Crawl(h, g, id, isRoot, s) == CrawlResult(d.yielded, d.scanned, ex.compiles + d.compiles);
    AccountedFrom(h, g, s, if ExpandsAt(h, g, id, isRoot) then {u} else {}, s', d.yielded, d.scanned);
  }

  /** An accounting that starts from `s'` also holds from `s` when `s'` only adds `extra`. */
  lemma AccountedFrom(h: Host, g: Graph, s: set<string>, extra: set<string>, s': set<string>,
                      ys: seq<NodeRef>, s'': set<string>)
    requires Valid(h, g) && RefsInRange(g, ys)
    requires s' <= s + extra
    requires ScannedAccounted(h, g, s', {}, ys, s'')
    ensures ScannedAccounted(h, g, s, extra, ys, s'')
  {
  }

  lemma {:induction false} DescendScanned(h: Host, g: Graph, children: seq<NodeRef>, s: set<string>)
    requires Valid(h, g) && RefsInRange(g, children)
    ensures ScannedAccounted(h, g, s, {}, Descend(h, g, children, s).yielded, Descend(h, g, children, s).scanned)
    decreases |AllIds(g) - s|, 2, 0, |children|
  {
    if children != [] {
      var c := children[0];
      var id := g.nodes[c].id;
      if !Truthy(id) || id.value in s {
        DescendScanned(h, g, children[1..], s);
      } else {
        var x := id.value;
        var sub := Crawl(h, g, x, false, s);
        CrawlScanned(h, g, x, false, s);
        CrawlYieldsFresh(h, g, x, false, s);
        SubsetMeasure(AllIds(g), s, sub.scanned);
        DescendScanned(h, g, children[1..], sub.scanned);
        var rest := Descend(h, g, children[1..], sub.scanned);
        assert Descend(h, g, children, s) == CrawlResult([c] + sub.yielded + rest.yielded, rest.scanned, sub.compiles + rest.compiles);
        assert h.unwrapId(x) == x && IdOf(g, c) == x;
        ScannedAfterChild(h, g, c, sub.yielded, rest.yielded, s, sub.scanned, rest.scanned);
      }
    }
  }

  /** Accounting for one yielded child: the child, then its crawl, then the rest of the loop. */
  lemma ScannedAfterChild(h: Host, g: Graph, c: NodeRef, A: seq<NodeRef>, B: seq<NodeRef>,
                          s: set<string>, s1: set<string>, s2: set<string>)
    requires Valid(h, g) && c < |g.nodes| && RefsInRange(g, A) && RefsInRange(g, B)
    requires s <= s1 <= s2
    requires ScannedAccounted(h, g, s, if Expands(h, g, IdOf(g, c)) then {IdOf(g, c)} else {}, A, s1)
    requires Expands(h, g, IdOf(g, c)) ==> IdOf(g, c) in s1
    requires ScannedAccounted(h, g, s1, {}, B, s2)
    ensures ScannedAccounted(h, g, s, {}, [c] + A + B, s2)
  {
    ScannedAfterChildSources(h, g, c, A, B, s, s1, s2);
    ScannedAfterChildKept(h, g, c, A, B, s1, s2);
  }

  /** Every identifier scanned by the child's crawl or the rest of the loop was scanned before or comes from a yield. */
  lemma ScannedAfterChildSources(h: Host, g: Graph, c: NodeRef, A: seq<NodeRef>, B: seq<NodeRef>,
                                 s: set<string>, s1: set<string>, s2: set<string>)
    requires Valid(h, g) && c < |g.nodes| && RefsInRange(g, A) && RefsInRange(g, B)
    requires forall y :: y in s1 ==>
               (y in s || (y == IdOf(g, c) && Expands(h, g, y)) || exists n :: n in A && IdOf(g, n) == y && Expands(h, g, y))
    requires forall y :: y in s2 ==> y in s1 || exists n :: n in B && IdOf(g, n) == y && Expands(h, g, y)
    ensures forall y :: y in s2 ==> y in s || exists n :: n in [c] + A + B && IdOf(g, n) == y && Expands(h, g, y)
  {
    var ys := [c] + A + B;
    forall y | y in s2
      ensures y in s || exists n :: n in ys && IdOf(g, n) == y && Expands(h, g, y)
    {
      if y !in s && y !in s1 {
        var n :| n in B && IdOf(g, n) == y && Expands(h, g, y);
        assert n in ys;
      } else if y !in s && y == IdOf(g, c) {
        assert c in ys;
      } else if y !in s {
        var n :| n in A && IdOf(g, n) == y && Expands(h, g, y);
        assert n in ys;
      }
    }
  }

  /** Every yielded node whose crawl found its entry has its identifier in the final scanned set. */
  lemma ScannedAfterChildKept(h: Host, g: Graph, c: NodeRef, A: seq<NodeRef>, B: seq<NodeRef>,
                              s1: set<string>, s2: set<string>)
    requires Valid(h, g) && c < |g.nodes| && RefsInRange(g, A) && RefsInRange(g, B)
    requires s1 <= s2
    requires forall n :: n in A && Expands(h, g, IdOf(g, n)) ==> IdOf(g, n) in s1
    requires Expands(h, g, IdOf(g, c)) ==> IdOf(g, c) in s1
    requires forall n :: n in B && Expands(h, g, IdOf(g, n)) ==> IdOf(g, n) in s2
    ensures forall n :: n in [c] + A + B && Expands(h, g, IdOf(g, n)) ==> IdOf(g, n) in s2
  {
    forall n | n in [c] + A + B && Expands(h, g, IdOf(g, n)) ensures IdOf(g, n) in s2 {
      if n != c && n !in A {
        assert n in B;
      }
    }
  }

  /** Two yields of the same identifier only happen for identifiers whose crawl finds no entry. */
  predicate RepeatsDoNotExpand(h: Host, g: Graph, ys: seq<NodeRef>)
    requires Valid(h, g) && RefsInRange(g, ys)
  {
    forall k, l :: 0 <= k < l < |ys| && IdOf(g, ys[k]) == IdOf(g, ys[l]) ==> !Expands(h, g, IdOf(g, ys[k]))
  }

  lemma {:induction false} CrawlRepeats(h: Host, g: Graph, id: string, isRoot: bool, s: set<string>)
    requires Valid(h, g)
    ensures RepeatsDoNotExpand(h, g, Crawl(h, g, id, isRoot, s).yielded)
    decreases |AllIds(g) - s|, if h.unwrapId(id) in s then 2 else 1, 1, 0
  {
    var u := h.unwrapId(id);
    if !h.isCssRequest(u) {
      var ex := Expand(h, g, u, isRoot);
      if ex.children != [] {
        var s' := if ex.matched && u !in s then s + {u} else s;
        AddMeasure(AllIds(g), s, u);
        ChildrenAreKeptEdges(h, g, u, isRoot);
        DescendRepeats(h, g, ex.children, s');
      }
    }
  }

  lemma {:induction false} DescendRepeats(h: Host, g: Graph, children: seq<NodeRef>, s: set<string>)
    requires Valid(h, g) && RefsInRange(g, children)
    requires NoBarriers(g, children)
    ensures RepeatsDoNotExpand(h, g, Descend(h, g, children, s).yielded)
    decreases |AllIds(g) - s|, 2, 0, |children|
  {
    if children != [] {
      var c := children[0];
      var id := g.nodes[c].id;
      if !Truthy(id) || id.value in s {
        DescendRepeats(h, g, children[1..], s);
      } else {
        var x := id.value;
        var sub := Crawl(h, g, x, false, s);
        CrawlRepeats(h, g, x, false, s);
        CrawlScanned(h, g, x, false, s);
        CrawlYieldsFresh(h, g, x, false, s);
        SubsetMeasure(AllIds(g), s, sub.scanned);
        DescendRepeats(h, g, children[1..], sub.scanned);
        DescendYieldsFresh(h, g, children[1..], sub.scanned);
        var A := sub.yielded;
        var B := Descend(h, g, children[1..], sub.scanned).yielded;
        var ys := [c] + A + B;
        assert Descend(h, g, children, s).yielded == ys;
        assert h.unwrapId(x) == x && IdOf(g, c) == x;
        RepeatsAfterChild(h, g, c, A, B, sub.scanned);
      }
    }
  }

  /** Joining the yields of one child: the child, its own crawl, then the remaining siblings. */
  lemma RepeatsAfterChild(h: Host, g: Graph, c: NodeRef, A: seq<NodeRef>, B: seq<NodeRef>, scanned: set<string>)
    requires Valid(h, g) && c < |g.nodes| && RefsInRange(g, A) && RefsInRange(g, B)
    requires RepeatsDoNotExpand(h, g, A) && RepeatsDoNotExpand(h, g, B)
    requires Expands(h, g, IdOf(g, c)) ==> IdOf(g, c) in scanned && forall n :: n in A ==> IdOf(g, n) != IdOf(g, c)
    requires forall n :: n in A && Expands(h, g, IdOf(g, n)) ==> IdOf(g, n) in scanned
    requires forall n :: n in B ==> IdOf(g, n) !in scanned
    ensures RepeatsDoNotExpand(h, g, [c] + A + B)
  {
    var ys := [c] + A + B;
    forall k, l | 0 <= k < l < |ys| && IdOf(g, ys[k]) == IdOf(g, ys[l])
      ensures !Expands(h, g, IdOf(g, ys[k]))
    {
      if k == 0 {
        if l <= |A| {
          assert ys[l] == A[l - 1] && A[l - 1] in A;
        } else {
          assert ys[l] == B[l - 1 - |A|] && B[l - 1 - |A|] in B;
        }
      } else if k <= |A| {
        assert ys[k] == A[k - 1] && A[k - 1] in A;
        if l <= |A| {
          assert ys[l] == A[l - 1];
        } else {
          assert ys[l] == B[l - 1 - |A|] && B[l - 1 - |A|] in B;
        }
      } else {
        assert ys[k] == B[k - 1 - |A|] && ys[l] == B[l - 1 - |A|];
      }
    }
  }

  /** `c` is kept by the collection phase of the crawl of `n`, which is not a style request. */
  predicate KeptBy(h: Host, g: Graph, n: NodeRef, c: NodeRef)
    requires Valid(h, g) && n < |g.nodes|
  {
    !h.isCssRequest(IdOf(g, n)) && c in Expand(h, g, IdOf(g, n), false).children
  }

  /** `ys[k]` is kept by the crawl of `parent` itself or by the crawl of a node yielded before it. */
  predicate Justified(h: Host, g: Graph, parent: string, isRoot: bool, ys: seq<NodeRef>, k: int)
    requires Valid(h, g) && RefsInRange(g, ys) && 0 <= k < |ys|
  {
    ys[k] in Expand(h, g, parent, isRoot).children || exists j :: 0 <= j < k && KeptBy(h, g, ys[j], ys[k])
  }

  /** `ys[k]` is one of `children` or is kept by the crawl of a node yielded before it. */
  predicate JustifiedBy(h: Host, g: Graph, children: seq<NodeRef>, ys: seq<NodeRef>, k: int)
    requires Valid(h, g) && RefsInRange(g, ys) && 0 <= k < |ys|
  {
    ys[k] in children || exists j :: 0 <= j < k && KeptBy(h, g, ys[j], ys[k])
  }

  lemma {:induction false} CrawlJustified(h: Host, g: Graph, id: string, isRoot: bool, s: set<string>)
    requires Valid(h, g)
    ensures forall k :: 0 <= k < |Crawl(h, g, id, isRoot, s).yielded| ==>
      Justified(h, g, h.unwrapId(id), isRoot, Crawl(h, g, id, isRoot, s).yielded, k)
    decreases |AllIds(g) - s|, if h.unwrapId(id) in s then 2 else 1, 1, 0
  {
    var u := h.unwrapId(id);
    if !h.isCssRequest(u) {
      var ex := Expand(h, g, u, isRoot);
      if ex.children != [] {
        var s' := if ex.matched && u !in s then s + {u} else s;
        AddMeasure(AllIds(g), s, u);
        DescendJustified(h, g, ex.children, s');
        var ys := Descend(h, g, ex.children, s').yielded;
        assert Crawl(h, g, id, isRoot, s).yielded == ys;
        forall k | 0 <= k < |ys| ensures Justified(h, g, u, isRoot, ys, k) {
          assert JustifiedBy(h, g, ex.children, ys, k);
        }
      }
    }
  }

  lemma {:induction false} DescendJustified(h: Host, g: Graph, children: seq<NodeRef>, s: set<string>)
    requires Valid(h, g) && RefsInRange(g, children)
    ensures forall k :: 0 <= k < |Descend(h, g, children, s).yielded| ==>
      JustifiedBy(h, g, children, Descend(h, g, children, s).yielded, k)
    decreases |AllIds(g) - s|, 2, 0, |children|
  {
    if children != [] {
      var c := children[0];
      var id := g.nodes[c].id;
      if !Truthy(id) || id.value in s {
        DescendJustified(h, g, children[1..], s);
        var ys := Descend(h, g, children[1..], s).yielded;
        forall k | 0 <= k < |ys| ensures JustifiedBy(h, g, children, ys, k) {
          assert JustifiedBy(h, g, children[1..], ys, k);
        }
      } else {
        var x := id.value;
        var sub := Crawl(h, g, x, false, s);
        CrawlJustified(h, g, x, false, s);
        SubsetMeasure(AllIds(g), s, sub.scanned);
        DescendJustified(h, g, children[1..], sub.scanned);
        var A := sub.yielded;
        var B := Descend(h, g, children[1..], sub.scanned).yielded;
        assert Descend(h, g, children, s).yielded == [c] + A + B;
        assert h.unwrapId(x) == x && IdOf(g, c) == x;
        JustifiedAfterChild(h, g, children, c, x, A, B);
      }
    }
  }

  /** A yield from the child's own crawl stays justified once the child precedes it. */
  lemma JustifiedInChild(h: Host, g: Graph, children: seq<NodeRef>, x: string,
                         A: seq<NodeRef>, ys: seq<NodeRef>, k: int)
    requires Valid(h, g) && RefsInRange(g, ys) && RefsInRange(g, A)
    requires 0 < k <= |A| && |A| < |ys| && children != [] && ys[0] == children[0]
    requires forall i :: 0 <= i < |A| ==> ys[i + 1] == A[i]
    requires ys[0] < |g.nodes| && IdOf(g, ys[0]) == x && !h.isCssRequest(x)
    requires Justified(h, g, x, false, A, k - 1)
    ensures JustifiedBy(h, g, children, ys, k)
  {
    assert ys[k] == A[k - 1];
    if A[k - 1] in Expand(h, g, x, false).children {
      assert KeptBy(h, g, ys[0], ys[k]);
    } else {
      var j :| 0 <= j < k - 1 && KeptBy(h, g, A[j], A[k - 1]);
      assert ys[j + 1] == A[j];
    }
  }

  /** A yield of the later children stays justified behind the child and its crawl. */
  lemma JustifiedInRest(h: Host, g: Graph, children: seq<NodeRef>, B: seq<NodeRef>, ys: seq<NodeRef>, d: nat, i: int)
    requires Valid(h, g) && RefsInRange(g, ys) && RefsInRange(g, B)
    requires 0 <= i < |B| && d + |B| == |ys| && children != []
    requires forall i :: 0 <= i < |B| ==> ys[d + i] == B[i]
    requires JustifiedBy(h, g, children[1..], B, i)
    ensures JustifiedBy(h, g, children, ys, d + i)
  {
    assert ys[d + i] == B[i];
    if B[i] in children[1..] {
      assert B[i] in children;
    } else {
      var j :| 0 <= j < i && KeptBy(h, g, B[j], B[i]);
      assert ys[d + j] == B[j];
    }
  }

  /** Joining the yields of one child keeps every yield justified. */
  lemma JustifiedAfterChild(h: Host, g: Graph, children: seq<NodeRef>, c: NodeRef, x: string,
                            A: seq<NodeRef>, B: seq<NodeRef>)
    requires Valid(h, g) && RefsInRange(g, A) && RefsInRange(g, B)
    requires children != [] && c == children[0] && c < |g.nodes| && IdOf(g, c) == x
    requires h.isCssRequest(x) ==> A == []
    requires forall k :: 0 <= k < |A| ==> Justified(h, g, x, false, A, k)
    requires forall k :: 0 <= k < |B| ==> JustifiedBy(h, g, children[1..], B, k)
    ensures forall k :: 0 <= k < |[c] + A + B| ==> JustifiedBy(h, g, children, [c] + A + B, k)
  {
    var ys := [c] + A + B;
    RefsInRangeConcat(g, [c], A);
    RefsInRangeConcat(g, [c] + A, B);
    ConsConcatIndex(c, A, B);
    assert ys[0] == c && c in children;
    assert JustifiedBy(h, g, children, ys, 0);
    if A != [] {
      JustifiedChildPart(h, g, children, x, A, ys);
    }
    JustifiedRestPart(h, g, children, B, ys, 1 + |A|);
  }

  /** The yields of the child's own crawl, at positions `1..|A|`, stay justified. */
  lemma JustifiedChildPart(h: Host, g: Graph, children: seq<NodeRef>, x: string, A: seq<NodeRef>, ys: seq<NodeRef>)
    requires Valid(h, g) && RefsInRange(g, ys) && RefsInRange(g, A)
    requires |A| < |ys| && children != [] && ys[0] == children[0]
    requires forall i :: 0 <= i < |A| ==> ys[i + 1] == A[i]
    requires ys[0] < |g.nodes| && IdOf(g, ys[0]) == x && !h.isCssRequest(x)
    requires forall k :: 0 <= k < |A| ==> Justified(h, g, x, false, A, k)
    ensures forall k :: 0 < k <= |A| ==> JustifiedBy(h, g, children, ys, k)
  {
    forall k | 0 < k <= |A| ensures JustifiedBy(h, g, children, ys, k) {
      JustifiedInChild(h, g, children, x, A, ys, k);
    }
  }

  /** The yields of the later children, from position `d` on, stay justified. */
  lemma JustifiedRestPart(h: Host, g: Graph, children: seq<NodeRef>, B: seq<NodeRef>, ys: seq<NodeRef>, d: nat)
    requires Valid(h, g) && RefsInRange(g, ys) && RefsInRange(g, B)
    requires d + |B| == |ys| && children != []
    requires forall i :: 0 <= i < |B| ==> ys[d + i] == B[i]
    requires forall k :: 0 <= k < |B| ==> JustifiedBy(h, g, children[1..], B, k)
    ensures forall k :: d <= k < |ys| ==> JustifiedBy(h, g, children, ys, k)
  {
    forall k | d <= k < |ys| ensures JustifiedBy(h, g, children, ys, k) {
      JustifiedInRest(h, g, children, B, ys, d, k - d);
    }
  }

  lemma ConsConcatIndex(c: NodeRef, A: seq<NodeRef>, B: seq<NodeRef>)
    ensures ([c] + A + B)[0] == c
    ensures forall i :: 0 <= i < |A| ==> ([c] + A + B)[i + 1] == A[i]
    ensures forall i :: 0 <= i < |B| ==> ([c] + A + B)[1 + |A| + i] == B[i]
  {
  }
}
