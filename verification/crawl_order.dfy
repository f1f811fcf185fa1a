/**
 * Order of the children a crawl call's yield loop walks: the local
 * `importedModules` set holds each followed edge once, in the order it was
 * first discovered across the expanded entries. The order of the compile
 * requests made while collecting them is stated here too.
 */
module CrawlOrder {
  import opened Optional
  import opened ModuleGraph
  import opened Crawler

  /** The edges of `edges` that are followed from `parent`, in order, repeats kept. */
  function KeptEdges(h: Host, g: Graph, parent: string, edges: seq<NodeRef>): (r: seq<NodeRef>)
    requires Valid(h, g) && RefsInRange(g, edges)
    ensures forall c :: c in r <==> c in edges && KeepsEdge(h, g, parent, c)
  {
    if edges == [] then []
    else
      var rest := KeptEdges(h, g, parent, edges[1..]);
      assert forall c :: c in edges <==> c == edges[0] || c in edges[1..];
      (if KeepsEdge(h, g, parent, edges[0]) then [edges[0]] else []) + rest
  }

  /** Followed edges of every expanded entry, entry after entry. */
  function KeptStream(h: Host, g: Graph, id: string, entries: seq<Option<NodeRef>>): seq<NodeRef>
    requires Valid(h, g) && EntriesInRange(g, entries)
  {
    if entries == [] then []
    else
      (if Matches(g, id, entries[0]) then KeptEdges(h, g, id, g.nodes[entries[0].value].importedModules) else [])
      + KeptStream(h, g, id, entries[1..])
  }

  /** Position of the first occurrence of `x` in `s`. */
  function FirstIndex(s: seq<NodeRef>, x: NodeRef): (i: nat)
    requires x in s
    ensures i < |s| && s[i] == x
  {
    if s[0] == x then 0 else 1 + FirstIndex(s[1..], x)
  }

  /** `r` lists the distinct elements of `s`, ordered by where each first occurs in `s`. */
  ghost predicate FirstSeenOrder(r: seq<NodeRef>, s: seq<NodeRef>) {
    && NoDup(r)
    && (forall x :: x in r ==> x in s)
    && (forall x :: x in s ==> x in r)
    && (forall i, j :: 0 <= i < j < |r| ==> r[i] in s && r[j] in s && FirstIndex(s, r[i]) < FirstIndex(s, r[j]))
  }

  lemma FirstIndexAppend(s: seq<NodeRef>, t: seq<NodeRef>, x: NodeRef)
    requires x in s
    ensures FirstIndex(s + t, x) == FirstIndex(s, x)
  {
    if s[0] != x {
      assert (s + t)[1..] == s[1..] + t;
      FirstIndexAppend(s[1..], t, x);
    }
  }

  /** Inserting the elements of `k` one by one into an insertion-ordered set `r`. */
  function InsertAll(r: seq<NodeRef>, k: seq<NodeRef>): (out: seq<NodeRef>)
    requires NoDup(r)
    ensures NoDup(out)
    decreases |k|
  {
    if k == [] then r else InsertAll(AddUnique(r, k[0]), k[1..])
  }

  lemma {:induction false} InsertAllConcat(r: seq<NodeRef>, a: seq<NodeRef>, b: seq<NodeRef>)
    requires NoDup(r)
    ensures InsertAll(r, a + b) == InsertAll(InsertAll(r, a), b)
    decreases |a|
  {
    if a == [] {
      assert a + b == b;
    } else {
      assert (a + b)[0] == a[0];
      assert (a + b)[1..] == a[1..] + b;
      InsertAllConcat(AddUnique(r, a[0]), a[1..], b);
    }
  }

  lemma FirstSeenOrderAdd(r: seq<NodeRef>, s: seq<NodeRef>, c: NodeRef)
    requires FirstSeenOrder(r, s)
    ensures FirstSeenOrder(AddUnique(r, c), s + [c])
  {
    var s' := s + [c];
    forall x | x in s ensures x in s' && FirstIndex(s', x) == FirstIndex(s, x) {
      FirstIndexAppend(s, [c], x);
    }
    if c !in r {
      var r' := r + [c];
      assert FirstIndex(s', c) == |s|;
      forall i, j | 0 <= i < j < |r'|
        ensures r'[i] in s' && r'[j] in s' && FirstIndex(s', r'[i]) < FirstIndex(s', r'[j])
      {
        if j < |r| {
          assert r'[i] == r[i] && r'[j] == r[j];
        } else {
          assert r'[i] == r[i] && r[i] in s;
        }
      }
    }
  }

  lemma SameOrder(r: seq<NodeRef>, s: seq<NodeRef>, r': seq<NodeRef>, s': seq<NodeRef>)
    requires r == r' && s == s'
    requires FirstSeenOrder(r, s)
    ensures FirstSeenOrder(r', s')
  {
  }

  /** Inserting a stream keeps first-discovery order over everything seen so far. */
  lemma {:induction false} InsertAllOrder(r: seq<NodeRef>, seen: seq<NodeRef>, k: seq<NodeRef>)
    requires FirstSeenOrder(r, seen)
    ensures FirstSeenOrder(InsertAll(r, k), seen + k)
    decreases |k|, 1
  {
    if k == [] {
      SameOrder(r, seen, InsertAll(r, k), seen + k);
    } else {
      InsertAllOrderStep(r, seen, k);
    }
  }

  lemma InsertAllUnfold(r: seq<NodeRef>, seen: seq<NodeRef>, k: seq<NodeRef>)
    requires NoDup(r) && k != []
    ensures InsertAll(r, k) == InsertAll(AddUnique(r, k[0]), k[1..])
    ensures seen + k == (seen + [k[0]]) + k[1..]
  {
  }

  lemma {:induction false} InsertAllOrderStep(r: seq<NodeRef>, seen: seq<NodeRef>, k: seq<NodeRef>)
    requires k != []
    requires FirstSeenOrder(r, seen)
    ensures FirstSeenOrder(InsertAll(r, k), seen + k)
    decreases |k|, 0
  {
    var r' := AddUnique(r, k[0]);
    var seen' := seen + [k[0]];
    FirstSeenOrderAdd(r, seen, k[0]);
    InsertAllOrder(r', seen', k[1..]);
    InsertAllUnfold(r, seen, k);
    SameOrder(InsertAll(r', k[1..]), seen' + k[1..], InsertAll(r, k), seen + k);
  }

  /** The edge loop inserts exactly the followed edges, in order. */
  lemma {:induction false} ScanEdgesInserts(h: Host, g: Graph, parent: string, edges: seq<NodeRef>, acc: Expansion)
    requires Valid(h, g) && RefsInRange(g, edges)
    requires RefsInRange(g, acc.children) && NoDup(acc.children)
    ensures ScanEdges(h, g, parent, edges, acc).children == InsertAll(acc.children, KeptEdges(h, g, parent, edges))
    decreases |edges|
  {
    if edges != [] {
      var c := edges[0];
      var acc' := ScanEdge(h, g, parent, c, acc);
      assert ScanEdges(h, g, parent, edges, acc) == ScanEdges(h, g, parent, edges[1..], acc');
      ScanEdgesInserts(h, g, parent, edges[1..], acc');
      var rest := KeptEdges(h, g, parent, edges[1..]);
      ScanEdgeChildren(h, g, parent, c, acc);
      if KeepsEdge(h, g, parent, c) {
        assert KeptEdges(h, g, parent, edges) == [c] + rest;
        assert ([c] + rest)[1..] == rest;
      } else {
        assert KeptEdges(h, g, parent, edges) == rest;
      }
    }
  }

  lemma ScanEdgeChildren(h: Host, g: Graph, parent: string, c: NodeRef, acc: Expansion)
    requires Valid(h, g) && c < |g.nodes|
    requires RefsInRange(g, acc.children) && NoDup(acc.children)
    ensures ScanEdge(h, g, parent, c, acc).children ==
      if KeepsEdge(h, g, parent, c) then AddUnique(acc.children, c) else acc.children
  {
  }

  /** The entry loop inserts the followed edges of every expanded entry, in order. */
  lemma {:induction false} ScanEntriesInserts(h: Host, g: Graph, id: string, entries: seq<Option<NodeRef>>, acc: Expansion)
    requires Valid(h, g) && EntriesInRange(g, entries)
    requires RefsInRange(g, acc.children) && NoDup(acc.children)
    ensures ScanEntries(h, g, id, entries, acc).children == InsertAll(acc.children, KeptStream(h, g, id, entries))
    decreases |entries|
  {
    if entries != [] {
      var e := entries[0];
      if Matches(g, id, e) {
        var edges := g.nodes[e.value].importedModules;
        var acc' := ScanEdges(h, g, id, edges, acc.(matched := true));
        ScanEdgesInserts(h, g, id, edges, acc.(matched := true));
        ScanEntriesInserts(h, g, id, entries[1..], acc');
        InsertAllConcat(acc.children, KeptEdges(h, g, id, edges), KeptStream(h, g, id, entries[1..]));
      } else {
        assert ScanEntries(h, g, id, entries, acc) == ScanEntries(h, g, id, entries[1..], acc);
        ScanEntriesInserts(h, g, id, entries[1..], acc);
        assert KeptStream(h, g, id, entries) == KeptStream(h, g, id, entries[1..]) by {
          assert [] + KeptStream(h, g, id, entries[1..]) == KeptStream(h, g, id, entries[1..]);
        }
      }
    }
  }

  /**
   * The children the yield loop of a crawl call walks are exactly the distinct
   * followed edges of its expanded entries, each once, in first-discovery
   * order. The loop still skips a child whose identifier is already scanned.
   */
  lemma ChildrenInDiscoveryOrder(h: Host, g: Graph, id: string, isRoot: bool)
    requires Valid(h, g)
    ensures FirstSeenOrder(Expand(h, g, id, isRoot).children, KeptStream(h, g, id, EntriesFor(g, id, isRoot)))
  {
    var stream := KeptStream(h, g, id, EntriesFor(g, id, isRoot));
    ScanEntriesInserts(h, g, id, EntriesFor(g, id, isRoot), Expansion(false, [], []));
    InsertAllFromEmpty(stream);
  }

  lemma InsertAllFromEmpty(k: seq<NodeRef>)
    ensures FirstSeenOrder(InsertAll([], k), k)
  {
    InsertAllOrder([], [], k);
    assert [] + k == k;
  }

  /** Requests of every expanded entry, entry after entry. */
  function CompileStream(h: Host, g: Graph, id: string, entries: seq<Option<NodeRef>>): seq<string>
    requires Valid(h, g) && EntriesInRange(g, entries)
  {
    if entries == [] then []
    else
      (if Matches(g, id, entries[0]) then CompileRequests(h, g, g.nodes[entries[0].value].importedModules) else [])
      + CompileStream(h, g, id, entries[1..])
  }

  lemma {:induction false} ScanEntriesCompiles(h: Host, g: Graph, id: string, entries: seq<Option<NodeRef>>, acc: Expansion)
    requires Valid(h, g) && EntriesInRange(g, entries)
    requires RefsInRange(g, acc.children) && NoDup(acc.children)
    ensures ScanEntries(h, g, id, entries, acc).compiles == acc.compiles + CompileStream(h, g, id, entries)
    decreases |entries|
  {
    if entries != [] {
      var e := entries[0];
      if Matches(g, id, e) {
        var edges := g.nodes[e.value].importedModules;
        var acc' := ScanEdges(h, g, id, edges, acc.(matched := true));
        ScanEntriesCompiles(h, g, id, entries[1..], acc');
        assert ScanEntries(h, g, id, entries, acc) == ScanEntries(h, g, id, entries[1..], acc');
        assert CompileStream(h, g, id, entries) == CompileRequests(h, g, edges) + CompileStream(h, g, id, entries[1..]);
        AppendAssoc(acc.compiles, CompileRequests(h, g, edges), CompileStream(h, g, id, entries[1..]));
      } else {
        ScanEntriesCompiles(h, g, id, entries[1..], acc);
        assert ScanEntries(h, g, id, entries, acc) == ScanEntries(h, g, id, entries[1..], acc);
        assert CompileStream(h, g, id, entries) == [] + CompileStream(h, g, id, entries[1..]);
      }
    } else {
      assert acc.compiles + [] == acc.compiles;
    }
  }

  /**
   * The collection phase of a crawl call requests a compile once per eligible
   * import edge of each expanded entry, in the order the edges are visited.
   */
  lemma ExpandCompiles(h: Host, g: Graph, id: string, isRoot: bool)
    requires Valid(h, g)
    ensures Expand(h, g, id, isRoot).compiles == CompileStream(h, g, id, EntriesFor(g, id, isRoot))
  {
    ScanEntriesCompiles(h, g, id, EntriesFor(g, id, isRoot), Expansion(false, [], []));
  }
}
