/**
 * A fixed snapshot of the dev server's module graph, as the crawler reads it.
 * Module nodes live in an arena and refer to each other by index, so two
 * distinct nodes may carry the same identifier, as they can during hot reload.
 */
module ModuleGraph {
  import opened Optional
  import opened JsString

  /** Index of a module node in the graph's arena. */
  type NodeRef = nat

  /**
   * A module node: its identifier (`null` is `None`), the nodes it imports,
   * the nodes that import it, and whether a server-rendered module exists for it.
   */
  datatype ModuleNode = ModuleNode(
    id: Option<string>,
    importedModules: seq<NodeRef>,
    importers: seq<NodeRef>,
    hasSsrModule: bool)

  /**
   * The module loader's view of the graph: the arena, the lookup by identifier
   * (`getModuleById`) and the lookup by file (`getModulesByFile`, in the set's
   * iteration order).
   */
  datatype Graph = Graph(
    nodes: seq<ModuleNode>,
    byId: map<string, NodeRef>,
    byFile: map<string, seq<NodeRef>>)

  /**
   * Collaborators whose definitions are not part of this model: `unwrapId`,
   * `isCSSRequest`, and the list of supported markdown extensions.
   */
  datatype Host = Host(
    unwrapId: string -> string,
    isCssRequest: string -> bool,
    markdownExtensions: set<string>)

  predicate RefsInRange(g: Graph, refs: seq<NodeRef>) {
    forall i :: 0 <= i < |refs| ==> refs[i] < |g.nodes|
  }

  lemma RefsInRangeConcat(g: Graph, a: seq<NodeRef>, b: seq<NodeRef>)
    requires RefsInRange(g, a) && RefsInRange(g, b)
    ensures RefsInRange(g, a + b)
  {
    forall i | 0 <= i < |a + b| ensures (a + b)[i] < |g.nodes| {
      if i >= |a| {
        assert (a + b)[i] == b[i - |a|];
      }
    }
  }

  /**
   * The graph is well formed: every index points into the arena, and every
   * node identifier is already in unwrapped form (the loader stores resolved
   * identifiers, and `unwrapId` leaves those unchanged).
   */
  predicate Valid(h: Host, g: Graph) {
    && (forall n :: 0 <= n < |g.nodes| ==>
          && RefsInRange(g, g.nodes[n].importedModules)
          && RefsInRange(g, g.nodes[n].importers)
          && (g.nodes[n].id.Some? ==> h.unwrapId(g.nodes[n].id.value) == g.nodes[n].id.value))
    && (forall k :: k in g.byId ==> g.byId[k] < |g.nodes|)
    && (forall f :: f in g.byFile ==> RefsInRange(g, g.byFile[f]))
  }

  /** Every identifier carried by some node of the snapshot. */
  function AllIds(g: Graph): set<string> {
    set n | 0 <= n < |g.nodes| && g.nodes[n].id.Some? :: g.nodes[n].id.value
  }

  lemma IdInAllIds(g: Graph, n: NodeRef)
    requires n < |g.nodes| && g.nodes[n].id.Some?
    ensures g.nodes[n].id.value in AllIds(g)
  {
  }

  /** `loader.getModuleById(id)`. */
  function GetModuleById(g: Graph, id: string): (r: Option<NodeRef>)
    requires forall k :: k in g.byId ==> g.byId[k] < |g.nodes|
    ensures r.Some? <==> id in g.byId
    ensures r.Some? ==> r.value < |g.nodes| && r.value == g.byId[id]
  {
    if id in g.byId then Some(g.byId[id]) else None
  }

  /** `isImportedBy(parent, node)` scanning `importers` from index `i`. */
  function ImportedByFrom(g: Graph, parent: string, importers: seq<NodeRef>, i: nat): (b: bool)
    requires RefsInRange(g, importers)
    requires i <= |importers|
    ensures b <==> exists j :: i <= j < |importers| && g.nodes[importers[j]].id == Some(parent)
    decreases |importers| - i
  {
    if i == |importers| then false
    else if g.nodes[importers[i]].id == Some(parent) then true
    else ImportedByFrom(g, parent, importers, i + 1)
  }

  /**
   * `isImportedBy`: the edge to `n` is a real import of `parent` when `n`
   * records an importer whose identifier is exactly `parent`.
   */
  function IsImportedBy(g: Graph, parent: string, n: NodeRef): (b: bool)
    requires n < |g.nodes| && RefsInRange(g, g.nodes[n].importers)
    ensures b <==> exists j :: 0 <= j < |g.nodes[n].importers| && g.nodes[g.nodes[n].importers[j]].id == Some(parent)
  {
    ImportedByFrom(g, parent, g.nodes[n].importers, 0)
  }
}
