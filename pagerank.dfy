/** The set and graph parts of the PageRank module
    (jp_civil_law/build/easy_analysis/pagerank.py): the personalization map,
    the graph-kind check, the empty-graph shortcut, the personalization key
    check, dangling nodes and the static/conditional edge split. */
module PageRank {
  import opened Common
  import opened Graphs

  /** `personalization_map(targets, whole, amplify)`: every node of `whole`
      weighs 1.0 and every target weighs `amplify`. */
  method PersonalizationMap(targets: seq<string>, whole: seq<string>, amplify: real)
    returns (p: map<string, real>)
    ensures p.Keys == (set n | n in whole) + (set t | t in targets)
    ensures forall t :: t in targets ==> p[t] == amplify
    ensures forall n :: n in whole && n !in targets ==> p[n] == 1.0
  {
    var flat := 1.0;
    var featured := flat * amplify;
    p := map n | n in whole :: flat;
    var i := 0;
    while i < |targets|
      invariant 0 <= i <= |targets|
      invariant p.Keys == (set n | n in whole) + (set t | t in targets[..i])
      invariant forall t :: t in targets[..i] ==> p[t] == featured
      invariant forall n :: n in whole && n !in targets[..i] ==> p[n] == flat
    {
      assert targets[..i + 1] == targets[..i] + [targets[i]];
      p := p[targets[i] := featured];
      i := i + 1;
    }
    assert targets[..i] == targets;
  }

  /** The networkx graph classes. An undirected graph stores every edge in
      both directions, as networkx's adjacency does. */
  datatype GraphKind = Undirected | Directed | MultiUndirected | MultiDirected

  datatype NxGraph = NxGraph(kind: GraphKind, graph: DiGraph)

  predicate IsMulti(kind: GraphKind) {
    kind == MultiUndirected || kind == MultiDirected
  }

  /** `PageRank.directed(G)`: `G.to_directed()` for an undirected graph,
      `G` itself otherwise. */
  function ToDirected(g: NxGraph): (d: NxGraph)
    ensures d.graph == g.graph
    ensures g.kind == Undirected ==> d.kind == Directed
    ensures g.kind != Undirected ==> d == g
  {
    if g.kind == Undirected then NxGraph(Directed, g.graph) else g
  }

  /** Conversion is idempotent: a directed graph is returned unchanged. */
  lemma ToDirectedIdempotent(g: NxGraph)
    ensures ToDirected(ToDirected(g)) == ToDirected(g)
    ensures ToDirected(g).kind != Undirected
  {
  }

  const MultiEdgeMessage: string := "pagerank() not defined for graphs with multiedges."

  /** `PageRank.graphtype_for_pr(G)`: multigraphs are refused, everything
      else is made directed. */
  function GraphTypeForPR(g: NxGraph): (r: Result<NxGraph, string>)
    ensures r.Err? <==> IsMulti(g.kind)
    ensures r.Err? ==> r.error == MultiEdgeMessage
    ensures r.Ok? ==> r.value.graph == g.graph && (r.value.kind == Directed)
  {
    if g.kind == MultiUndirected || g.kind == MultiDirected then Err(MultiEdgeMessage)
    else Ok(ToDirected(g))
  }

  /** How `pagerank` and `pagerank_conditional` proceed before the power
      iteration: `{}` for an empty graph, or iteration on the directed graph. */
  datatype Start = EmptyRanks | Iterate(directed: NxGraph)

  function PageRankStart(g: NxGraph): (r: Result<Start, string>)
    ensures r.Err? <==> IsMulti(g.kind)
    ensures r.Ok? ==> (r.value == EmptyRanks <==> |g.graph.nodes| == 0)
    ensures r.Ok? && r.value.Iterate? ==> r.value.directed.kind == Directed && r.value.directed.graph == g.graph
  {
    match GraphTypeForPR(g)
    case Err(e) => Err(e)
    case Ok(d) => if |g.graph.nodes| == 0 then Ok(EmptyRanks) else Ok(Iterate(d))
  }

  const MissingNodesMessage: string := "Personalization vector must have a value for every node"

  /** `PageRank.personalization_vector(personalization, eq_prob, H)`, up to
      the normalization of the supplied values. */
  function PersonalizationVector(personalization: Option<map<string, real>>, eqProb: real, nodes: seq<string>)
    : (r: Result<map<string, real>, string>)
    ensures personalization.None? ==>
      r.Ok? && r.value.Keys == (set n | n in nodes) && (forall n :: n in nodes ==> r.value[n] == eqProb)
    ensures personalization.Some? ==>
      (r.Err? <==> personalization.value.Keys != (set n | n in nodes))
    ensures r.Err? ==> r.error == MissingNodesMessage
    ensures r.Ok? ==> r.value.Keys == (set n | n in nodes)
  {
    match personalization
    case None => Ok(map n | n in nodes :: eqProb)
    case Some(p) =>
      if p.Keys != (set n | n in nodes) then Err(MissingNodesMessage) else Ok(p)
  }

  /** Selects the nodes without an out-edge. */
  function NoOutEdge(g: DiGraph): string -> bool {
    (n: string) => forall e :: e in g.edges ==> e.src != n
  }

  /** `PageRank.find_dangle(H)`: the nodes of out-degree 0, in node order. */
  function FindDangle(g: DiGraph): (dangle: seq<string>)
    ensures forall n :: n in dangle <==> n in g.nodes && !exists m :: Adjacent(g, n, m)
    ensures |dangle| <= |g.nodes|
  {
    var r := Filter(g.nodes, NoOutEdge(g));
    assert forall n :: NoOutEdge(g)(n) <==> !exists m :: Adjacent(g, n, m) by {
      forall n
        ensures NoOutEdge(g)(n) <==> !exists m :: Adjacent(g, n, m)
      {
        if !NoOutEdge(g)(n) {
          var e :| e in g.edges && e.src == n;
          assert Adjacent(g, n, e.dst);
        }
      }
    }
    r
  }

  function IsConditional(conditionalLinks: seq<string>): Edge -> bool {
    (e: Edge) => e.relation in conditionalLinks
  }

  function IsStatic(conditionalLinks: seq<string>): Edge -> bool {
    (e: Edge) => e.relation !in conditionalLinks
  }

  /** `PageRank.separate_conditional(H, conditional_links)`: two graphs on
      all nodes of `H`; an edge goes to the conditional one iff its label is
      in `conditional_links`, with its label and weight. */
  method SeparateConditional(h: DiGraph, conditionalLinks: seq<string>)
    returns (hstat: DiGraph, hcond: DiGraph)
    ensures hstat.nodes == h.nodes && hcond.nodes == h.nodes
    ensures hstat.edges == Filter(h.edges, IsStatic(conditionalLinks))
    ensures hcond.edges == Filter(h.edges, IsConditional(conditionalLinks))
  {
    hstat := DiGraph(h.nodes, []);
    hcond := DiGraph(h.nodes, []);
    var i := 0;
    while i < |h.edges|
      invariant 0 <= i <= |h.edges|
      invariant hstat.nodes == h.nodes && hcond.nodes == h.nodes
      invariant hstat.edges == Filter(h.edges[..i], IsStatic(conditionalLinks))
      invariant hcond.edges == Filter(h.edges[..i], IsConditional(conditionalLinks))
    {
      var edgeref := h.edges[i];
      SeparateStep(h.edges, i, conditionalLinks);
      var edge := Edge(edgeref.src, edgeref.dst, edgeref.relation, edgeref.weight);
      if edgeref.relation in conditionalLinks {
        hcond := DiGraph(hcond.nodes, hcond.edges + [edge]);
      } else {
        hstat := DiGraph(hstat.nodes, hstat.edges + [edge]);
      }
      i := i + 1;
    }
    assert h.edges[..i] == h.edges;
  }

  lemma SeparateStep(edges: seq<Edge>, i: nat, conditionalLinks: seq<string>)
    requires i < |edges|
    ensures edges[i].relation in conditionalLinks ==>
      Filter(edges[..i + 1], IsConditional(conditionalLinks)) == Filter(edges[..i], IsConditional(conditionalLinks)) + [edges[i]] &&
      Filter(edges[..i + 1], IsStatic(conditionalLinks)) == Filter(edges[..i], IsStatic(conditionalLinks))
    ensures edges[i].relation !in conditionalLinks ==>
      Filter(edges[..i + 1], IsConditional(conditionalLinks)) == Filter(edges[..i], IsConditional(conditionalLinks)) &&
      Filter(edges[..i + 1], IsStatic(conditionalLinks)) == Filter(edges[..i], IsStatic(conditionalLinks)) + [edges[i]]
  {
    assert edges[..i + 1] == edges[..i] + [edges[i]];
    FilterConcat(edges[..i], [edges[i]], IsStatic(conditionalLinks));
    FilterConcat(edges[..i], [edges[i]], IsConditional(conditionalLinks));
  }

  /** Every edge of `H` lands in exactly one of the two graphs, unchanged,
      and the two together hold all of `H`'s edges. */
  lemma {:induction false} SeparationPartitions(edges: seq<Edge>, conditionalLinks: seq<string>)
    ensures multiset(Filter(edges, IsStatic(conditionalLinks))) + multiset(Filter(edges, IsConditional(conditionalLinks)))
      == multiset(edges)
    ensures forall e :: e in edges ==>
      (e in Filter(edges, IsConditional(conditionalLinks)) <==> e.relation in conditionalLinks) &&
      (e in Filter(edges, IsStatic(conditionalLinks)) <==> e.relation !in conditionalLinks)
  {
    if edges != [] {
      SeparationPartitions(edges[1..], conditionalLinks);
      assert edges == [edges[0]] + edges[1..];
    }
  }
}
