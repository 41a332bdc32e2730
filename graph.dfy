/** The part of a networkx `DiGraph` the analysis code relies on: nodes in
    insertion order and labelled, weighted edges. `nx_graph[n]` is the set
    of successors of `n`, and `edges(nbunch=[n], data=True)` the out-edges
    of `n` in insertion order. */
module Graphs {
  import opened Common

  /** An edge with its `label` attribute (the relation name) and `weight`. */
  datatype Edge = Edge(src: string, dst: string, relation: string, weight: real)

  datatype DiGraph = DiGraph(nodes: seq<string>, edges: seq<Edge>)

  /** No node is listed twice. */
  ghost predicate DistinctNodes(g: DiGraph) {
    forall i, j :: 0 <= i < j < |g.nodes| ==> g.nodes[i] != g.nodes[j]
  }

  /** Every edge joins two nodes of the graph. */
  ghost predicate EdgesBetweenNodes(g: DiGraph) {
    forall e :: e in g.edges ==> e.src in g.nodes && e.dst in g.nodes
  }

  /** At most one edge per ordered pair of nodes. */
  ghost predicate SimpleEdges(g: DiGraph) {
    forall e1, e2 :: e1 in g.edges && e2 in g.edges && e1.src == e2.src && e1.dst == e2.dst ==> e1 == e2
  }

  /** No edge is listed twice. */
  ghost predicate DistinctEdges(g: DiGraph) {
    forall i, j :: 0 <= i < j < |g.edges| ==> g.edges[i] != g.edges[j]
  }

  /** A simple directed graph, as a networkx `DiGraph` is. */
  ghost predicate Valid(g: DiGraph) {
    DistinctNodes(g) && EdgesBetweenNodes(g) && SimpleEdges(g) && DistinctEdges(g)
  }

  /** Selects the out-edges of `node` whose label is one of `props`. */
  function LabelledFrom(node: string, props: seq<string>): Edge -> bool {
    (e: Edge) => e.src == node && e.relation in props
  }

  /** `links_from(node, nx_graph, props)` (termexpand.py): the out-edges of
      `node` whose `label` is in `props`, in edge order. */
  function LinksFrom(node: string, g: DiGraph, props: seq<string>): (r: seq<Edge>)
    ensures forall e :: e in r <==> e in g.edges && e.src == node && e.relation in props
    ensures |r| <= |g.edges|
  {
    Filter(g.edges, LabelledFrom(node, props))
  }

  /** `b in nx_graph[a]`: some edge, whatever its label, goes from `a` to `b`. */
  predicate Adjacent(g: DiGraph, a: string, b: string) {
    exists e :: e in g.edges && e.src == a && e.dst == b
  }

  /** An edge from `a` to `b` labelled with one of `props`. */
  predicate LinkedBy(g: DiGraph, a: string, b: string, props: seq<string>) {
    exists e :: e in g.edges && e.src == a && e.dst == b && e.relation in props
  }

  /** `p` is a path from `u` to `v` along edges of `g`. */
  predicate IsPath(g: DiGraph, p: seq<string>, u: string, v: string) {
    && |p| > 0 && p[0] == u && p[|p| - 1] == v
    && (forall k :: 0 <= k < |p| - 1 ==> Adjacent(g, p[k], p[k + 1]))
  }

  /** The same nodes and only the edges whose label is in `props`. */
  function KeepLabels(g: DiGraph, props: seq<string>): (h: DiGraph)
    ensures h.nodes == g.nodes
    ensures forall e :: e in h.edges <==> e in g.edges && e.relation in props
  {
    DiGraph(g.nodes, Filter(g.edges, (e: Edge) => e.relation in props))
  }

  /** `graph.remove_edge(src, dest)` */
  function RemoveEdge(g: DiGraph, src: string, dst: string): (h: DiGraph)
    ensures h.nodes == g.nodes
    ensures forall e :: e in h.edges <==> e in g.edges && (e.src, e.dst) != (src, dst)
  {
    DiGraph(g.nodes, Filter(g.edges, (e: Edge) => (e.src, e.dst) != (src, dst)))
  }
}
