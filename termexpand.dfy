/** Ontology term expansion (jp_civil_law/build/easy_analysis/termexpand.py).
    `populate` grows a list of seed terms by running expansion rules over a
    labelled graph until a whole pass adds nothing. Each rule is a generator
    that walks the very list `populate` appends its yields to, and compares
    candidates against `current`, a copy of that list taken at the start of
    each of its steps. */
module TermExpand {
  import opened Common
  import opened Graphs

  const HyperProps: seq<string> := ["hyper", "hyperx"]
  const FrameProps: seq<string> := ["sbj", "obj", "attr_slot"]
  const SlotProps: seq<string> := FrameProps + ["antecedent_to", "auth", "auth_by", "within"]
  const AllProps: seq<string> := SlotProps + HyperProps
  const AttrProps: seq<string> := ["attr_slot"]

  /** The seven rule generators; `all_methods` lists them in this order. */
  datatype Rule =
    | HyperFrames | HypoFrames | AttrHypers | Prerequisites
    | AscendingWays | AscendedHubs | AttrsOfAttrs

  const AllRules: seq<Rule> :=
    [HyperFrames, HypoFrames, AttrHypers, Prerequisites, AscendingWays, AscendedHubs, AttrsOfAttrs]

  /** `scorebase`: the score of a term added by each rule. */
  function Score(rule: Rule): real {
    match rule
    case HyperFrames => 1.0
    case HypoFrames => 0.3
    case AttrHypers => 0.5
    case Prerequisites => 0.8
    case AscendingWays => 0.2
    case AscendedHubs => 0.2
    case AttrsOfAttrs => 0.5
  }

  /** The score `populate` gives every seed term. */
  const SeedScore: real := 0.5

  /** The answers of `networkx.shortest_path` on the hyper-only copy of the
      graph, for the pairs of nodes where it does not raise `NetworkXNoPath`. */
  type Paths = map<(string, string), seq<string>>

  /** Every answer is a path of the hyper-only copy between the pair's
      nodes. */
  ghost predicate PathsSound(g: DiGraph, paths: Paths) {
    forall uv :: uv in paths ==> IsPath(KeepLabels(g, HyperProps), paths[uv], uv.0, uv.1)
  }

  /** Every pair of nodes that a path of the hyper-only copy joins has an
      answer. */
  ghost predicate PathsComplete(g: DiGraph, paths: Paths) {
    forall u, v, p :: u in g.nodes && v in g.nodes && IsPath(KeepLabels(g, HyperProps), p, u, v) ==> (u, v) in paths
  }

  /** The answers of `shortest_path`: a pair is present exactly when a path
      joins its nodes, and then its answer is such a path. */
  ghost predicate PathsIn(g: DiGraph, paths: Paths) {
    PathsSound(g, paths) && PathsComplete(g, paths)
  }

  /** Two nodes have an answer exactly when a path of the hyper-only copy
      joins them. */
  lemma PathsAnswered(g: DiGraph, paths: Paths, u: string, v: string)
    requires PathsIn(g, paths) && u in g.nodes && v in g.nodes
    ensures (u, v) in paths <==> exists p :: IsPath(KeepLabels(g, HyperProps), p, u, v)
  {
    if (u, v) in paths {
      assert IsPath(KeepLabels(g, HyperProps), paths[(u, v)], u, v);
    }
  }

  function Elems(s: seq<string>): set<string> {
    set t | t in s
  }

  /** `set(slots)`: the targets of the `props` edges leaving `x`. */
  function Targets(g: DiGraph, x: string, props: seq<string>): set<string> {
    set e | e in LinksFrom(x, g, props) :: e.dst
  }

  /** Some `props` edge leads from `x` into `s`. */
  ghost predicate LinksInto(g: DiGraph, x: string, props: seq<string>, s: seq<string>) {
    exists e :: e in g.edges && e.src == x && e.relation in props && e.dst in s
  }

  /** `props` edges lead from `x` to at least two distinct members of `s`. */
  ghost predicate LinksIntoTwo(g: DiGraph, x: string, props: seq<string>, s: seq<string>) {
    exists e1, e2 ::
      && e1 in g.edges && e1.src == x && e1.relation in props && e1.dst in s
      && e2 in g.edges && e2.src == x && e2.relation in props && e2.dst in s
      && e1.dst != e2.dst
  }

  /** The two edge kinds `hyperframes` and `attr_hypers` follow. */
  function FirstHop(rule: Rule): seq<string> {
    if rule == HyperFrames then HyperProps else AttrProps
  }

  function SecondHop(rule: Rule): seq<string> {
    if rule == HyperFrames then SlotProps else HyperProps
  }

  /** `x` is a `first` successor of `t` and has a `second` edge into `s`. */
  ghost predicate TwoHop(g: DiGraph, first: seq<string>, second: seq<string>, s: seq<string>, t: string, x: string) {
    LinkedBy(g, t, x, first) && LinksInto(g, x, second, s)
  }

  /** `x` has an `attr_slot` edge to a member of `s` that is adjacent, in
      either direction, to `t`. */
  ghost predicate AttrOfAttrVia(g: DiGraph, s: seq<string>, t: string, x: string) {
    exists a :: a in s && LinkedBy(g, x, a, AttrProps) && (Adjacent(g, t, a) || Adjacent(g, a, t))
  }

  ghost predicate AttrOfAttr(g: DiGraph, s: seq<string>, t: string, x: string) {
    LinkedBy(g, t, x, AttrProps) && AttrOfAttrVia(g, s, t, x)
  }

  /** Two distinct nodes, as `itertools.permutations(nodes, 2)` yields them. */
  ghost predicate Pair(g: DiGraph, uv: (string, string)) {
    uv.0 in g.nodes && uv.1 in g.nodes && uv.0 != uv.1
  }

  /** When the path rules walk the path from `uv.0` to `uv.1`:
      `ascending_ways` when both ends are listed, `ascendedhubs` when the
      start is listed and the end has edges to two distinct listed terms. */
  ghost predicate PathVisited(rule: Rule, g: DiGraph, s: seq<string>, uv: (string, string)) {
    uv.0 in s && if rule == AscendingWays then uv.1 in s else LinksIntoTwo(g, uv.1, AllProps, s)
  }

  /** The reason a rule gives for adding `x` when the list holds `s`. */
  ghost predicate Justified(rule: Rule, g: DiGraph, paths: Paths, s: seq<string>, x: string) {
    match rule
    case HyperFrames => exists t :: t in s && TwoHop(g, HyperProps, SlotProps, s, t, x)
    case AttrHypers => exists t :: t in s && TwoHop(g, AttrProps, HyperProps, s, t, x)
    case HypoFrames => LinksInto(g, x, HyperProps, s) && LinksInto(g, x, FrameProps, s)
    case Prerequisites => LinksIntoTwo(g, x, AllProps, s)
    case AscendingWays => exists uv :: uv in paths && Pair(g, uv) && PathVisited(rule, g, s, uv) && x in paths[uv]
    case AscendedHubs => exists uv :: uv in paths && Pair(g, uv) && PathVisited(rule, g, s, uv) && x in paths[uv]
    case AttrsOfAttrs => exists t :: t in s && AttrOfAttr(g, s, t, x)
  }

  /** `s` is closed under `rule`: every node the rule would justify is in it. */
  ghost predicate Closed(rule: Rule, g: DiGraph, paths: Paths, s: seq<string>) {
    forall x :: x in g.nodes && Justified(rule, g, paths, s, x) ==> x in s
  }

  /** `expand` extends `base` by graph nodes that `base` lacks. */
  ghost predicate Fresh(g: DiGraph, base: seq<string>, expand: seq<string>) {
    && base <= expand
    && forall k :: |base| <= k < |expand| ==> expand[k] in g.nodes && expand[k] !in base
  }

  /** Scores after a rule ran: one per listed term, earlier scores kept,
      `scorebase[rule]` for every term the rule appended. */
  ghost predicate Rescored(rule: Rule, base: seq<string>, baseScores: map<string, real>,
                           expand: seq<string>, scoremap: map<string, real>) {
    && scoremap.Keys == Elems(expand)
    && (forall t :: t in base && t in baseScores ==> t in scoremap && scoremap[t] == baseScores[t])
    && (forall k :: |base| <= k < |expand| ==> expand[k] in scoremap && scoremap[expand[k]] == Score(rule))
  }

  /** What a run of `rule` did to the list and the scores: it appended
      nodes the list lacked, each justified by the terms before it. */
  ghost predicate Extends(rule: Rule, g: DiGraph, paths: Paths, base: seq<string>, baseScores: map<string, real>,
                          expand: seq<string>, scoremap: map<string, real>) {
    && Fresh(g, base, expand)
    && Rescored(rule, base, baseScores, expand, scoremap)
    && forall k :: |base| <= k < |expand| ==> Justified(rule, g, paths, expand[..k], expand[k])
  }

  /** The nodes not yet in the list. */
  function Unreached(g: DiGraph, s: seq<string>): set<string> {
    Elems(g.nodes) - Elems(s)
  }

  lemma PrefixElems(a: seq<string>, b: seq<string>)
    requires a <= b
    ensures forall y :: y in a ==> y in b
  {
    forall y | y in a
      ensures y in b
    {
      var k :| 0 <= k < |a| && a[k] == y;
      assert b[k] == y;
    }
  }

  /** Adding anything moves the list strictly closer to holding every node,
      which bounds every loop that walks the growing list. */
  lemma UnreachedShrinks(g: DiGraph, base: seq<string>, expand: seq<string>)
    requires Fresh(g, base, expand) && |expand| > |base|
    ensures |Unreached(g, expand)| < |Unreached(g, base)|
  {
    PrefixElems(base, expand);
    var x := expand[|base|];
    var gone := Unreached(g, base) - Unreached(g, expand);
    assert x in gone;
    assert Unreached(g, base) == Unreached(g, expand) + gone;
  }

  /** A fresh extension with the same elements adds nothing. */
  lemma SameElemsNoGrowth(g: DiGraph, base: seq<string>, expand: seq<string>)
    requires Fresh(g, base, expand) && Elems(base) == Elems(expand)
    ensures expand == base
  {
    if |expand| > |base| {
      FreshFirst(g, base, expand);
    }
  }

  /** A pass either leaves the list as it was or adds a node. */
  lemma PassProgress(g: DiGraph, base: seq<string>, expand: seq<string>)
    requires Fresh(g, base, expand)
    ensures Elems(base) == Elems(expand) ==> expand == base
    ensures Elems(base) != Elems(expand) ==> |Unreached(g, expand)| < |Unreached(g, base)|
  {
    if Elems(base) == Elems(expand) {
      SameElemsNoGrowth(g, base, expand);
    } else if |expand| > |base| {
      UnreachedShrinks(g, base, expand);
    } else {
      FreshSame(g, base, expand);
    }
  }

  lemma FreshSame(g: DiGraph, base: seq<string>, expand: seq<string>)
    requires Fresh(g, base, expand) && |expand| == |base|
    ensures expand == base
  {
  }

  lemma FreshFirst(g: DiGraph, base: seq<string>, expand: seq<string>)
    requires Fresh(g, base, expand) && |expand| > |base|
    ensures expand[|base|] !in Elems(base) && expand[|base|] in Elems(expand)
  {
  }

  lemma FreshTrans(g: DiGraph, a: seq<string>, b: seq<string>, c: seq<string>)
    requires Fresh(g, a, b) && Fresh(g, b, c)
    ensures Fresh(g, a, c)
  {
    PrefixElems(a, b);
    assert c[..|a|] == b[..|a|];
  }

  /** Reasons survive growth of the list. */
  lemma JustifiedGrows(rule: Rule, g: DiGraph, paths: Paths, s: seq<string>, s': seq<string>, x: string)
    requires forall y :: y in s ==> y in s'
    requires Justified(rule, g, paths, s, x)
    ensures Justified(rule, g, paths, s', x)
  {
    match rule
    case HyperFrames =>
      var t :| t in s && TwoHop(g, HyperProps, SlotProps, s, t, x);
      assert TwoHop(g, HyperProps, SlotProps, s', t, x);
    case AttrHypers =>
      var t :| t in s && TwoHop(g, AttrProps, HyperProps, s, t, x);
      assert TwoHop(g, AttrProps, HyperProps, s', t, x);
    case AttrsOfAttrs =>
      var t :| t in s && AttrOfAttr(g, s, t, x);
      assert AttrOfAttr(g, s', t, x);
    case AscendedHubs =>
      var uv :| uv in paths && Pair(g, uv) && PathVisited(rule, g, s, uv) && x in paths[uv];
      assert PathVisited(rule, g, s', uv);
    case _ =>
  }

  lemma FreshAppend(g: DiGraph, base: seq<string>, expand: seq<string>, x: string)
    requires Fresh(g, base, expand) && x in g.nodes && x !in base
    ensures Fresh(g, base, expand + [x])
  {
    assert (expand + [x])[..|base|] == base;
  }

  lemma RescoredAppend(rule: Rule, base: seq<string>, baseScores: map<string, real>,
                       expand: seq<string>, scoremap: map<string, real>, x: string)
    requires Rescored(rule, base, baseScores, expand, scoremap) && x !in base
    ensures Rescored(rule, base, baseScores, expand + [x], scoremap[x := Score(rule)])
  {
    assert Elems(expand + [x]) == Elems(expand) + {x};
  }

  lemma JustifiedAppend(rule: Rule, g: DiGraph, paths: Paths, base: seq<string>, expand: seq<string>,
                        current: seq<string>, x: string)
    requires base <= expand && current <= expand && Justified(rule, g, paths, current, x)
    requires forall k :: |base| <= k < |expand| ==> Justified(rule, g, paths, expand[..k], expand[k])
    ensures forall k :: |base| <= k < |expand + [x]| ==> Justified(rule, g, paths, (expand + [x])[..k], (expand + [x])[k])
  {
    var grown := expand + [x];
    PrefixElems(current, expand);
    assert grown[..|expand|] == expand;
    JustifiedGrows(rule, g, paths, current, expand, x);
    forall k | |base| <= k < |grown|
      ensures Justified(rule, g, paths, grown[..k], grown[k])
    {
      if k < |expand| {
        assert grown[..k] == expand[..k];
      }
    }
  }

  /** One yield: appending a justified node the snapshot lacks keeps
      `Extends`. */
  lemma ExtendsAppend(rule: Rule, g: DiGraph, paths: Paths, base: seq<string>, baseScores: map<string, real>,
                      expand: seq<string>, scoremap: map<string, real>, current: seq<string>, x: string)
    requires Extends(rule, g, paths, base, baseScores, expand, scoremap)
    requires base <= current && Fresh(g, current, expand)
    requires x in g.nodes && x !in current && Justified(rule, g, paths, current, x)
    ensures Extends(rule, g, paths, base, baseScores, expand + [x], scoremap[x := Score(rule)])
    ensures Fresh(g, current, expand + [x])
  {
    PrefixElems(base, current);
    FreshAppend(g, base, expand, x);
    FreshAppend(g, current, expand, x);
    RescoredAppend(rule, base, baseScores, expand, scoremap, x);
    JustifiedAppend(rule, g, paths, base, expand, current, x);
  }

  lemma TargetsMeet(g: DiGraph, x: string, props: seq<string>, s: seq<string>)
    ensures LinksInto(g, x, props, s) <==> Targets(g, x, props) * Elems(s) != {}
  {
    if LinksInto(g, x, props, s) {
      var e :| e in g.edges && e.src == x && e.relation in props && e.dst in s;
      assert e.dst in Targets(g, x, props) * Elems(s);
    }
  }

  lemma TwoElements(a: set<string>)
    ensures |a| >= 2 <==> exists y, z :: y in a && z in a && y != z
  {
    if |a| >= 2 {
      var y :| y in a;
      assert |a - {y}| == |a| - 1;
      var z :| z in a - {y};
    }
    if exists y, z :: y in a && z in a && y != z {
      var y, z :| y in a && z in a && y != z;
      assert {y, z} <= a;
      assert |{y, z}| == 2;
      assert a == {y, z} + (a - {y, z});
    }
  }

  lemma TargetsMeetTwice(g: DiGraph, x: string, props: seq<string>, s: seq<string>)
    ensures LinksIntoTwo(g, x, props, s) <==> |Targets(g, x, props) * Elems(s)| >= 2
  {
    var meet := Targets(g, x, props) * Elems(s);
    TwoElements(meet);
    if |meet| >= 2 {
      var y, z :| y in meet && z in meet && y != z;
      var e1 :| e1 in LinksFrom(x, g, props) && e1.dst == y;
      var e2 :| e2 in LinksFrom(x, g, props) && e2.dst == z;
    }
    if LinksIntoTwo(g, x, props, s) {
      var e1, e2 :| && e1 in g.edges && e1.src == x && e1.relation in props && e1.dst in s
                    && e2 in g.edges && e2.src == x && e2.relation in props && e2.dst in s
                    && e1.dst != e2.dst;
      assert e1.dst in meet && e2.dst in meet;
    }
  }

  /** The test `hypoframes` and `prerequisites` apply to an unlisted node,
      computed on sets of edge targets as the source does. */
  function Admits(rule: Rule, g: DiGraph, term: string, current: seq<string>): bool {
    if rule == HypoFrames then
      var hypers := Targets(g, term, HyperProps);
      var slots := Targets(g, term, FrameProps);
      !(hypers == {} || hypers !! Elems(current)) && !(slots == {} || slots !! Elems(current))
    else
      var slots := Targets(g, term, AllProps);
      !(slots == {} || |slots * Elems(current)| < 2)
  }

  lemma TwoHopClosed(rule: Rule, g: DiGraph, paths: Paths, s: seq<string>)
    requires rule == HyperFrames || rule == AttrHypers
    requires forall t, x :: t in s && TwoHop(g, FirstHop(rule), SecondHop(rule), s, t, x) ==> x in s
    ensures Closed(rule, g, paths, s)
  {
  }

  lemma AttrsClosed(g: DiGraph, paths: Paths, s: seq<string>)
    requires forall t, x :: t in s && AttrOfAttr(g, s, t, x) ==> x in s
    ensures Closed(AttrsOfAttrs, g, paths, s)
  {
  }

  lemma PathsClosed(rule: Rule, g: DiGraph, paths: Paths, s: seq<string>)
    requires rule == AscendingWays || rule == AscendedHubs
    requires forall uv :: uv in paths && Pair(g, uv) && PathVisited(rule, g, s, uv) ==>
      forall x :: x in paths[uv] ==> x in s
    ensures Closed(rule, g, paths, s)
  {
  }

  /** The set computation decides exactly the rule's reason. */
  lemma AdmitsJustified(rule: Rule, g: DiGraph, paths: Paths, term: string, current: seq<string>)
    requires rule == HypoFrames || rule == Prerequisites
    ensures Admits(rule, g, term, current) <==> Justified(rule, g, paths, current, term)
  {
    if rule == HypoFrames {
      TargetsMeet(g, term, HyperProps, current);
      TargetsMeet(g, term, FrameProps, current);
    } else {
      TargetsMeetTwice(g, term, AllProps, current);
    }
  }

  /** The test the path rules apply to a pair before walking its path. */
  function Visits(rule: Rule, g: DiGraph, current: seq<string>, u: string, v: string): bool {
    if rule == AscendingWays then u in current && v in current
    else
      var slots := Targets(g, v, AllProps);
      u in current && !(slots == {} || |slots * Elems(current)| < 2)
  }

  lemma VisitsPath(rule: Rule, g: DiGraph, current: seq<string>, u: string, v: string)
    ensures Visits(rule, g, current, u, v) <==> PathVisited(rule, g, current, (u, v))
  {
    TargetsMeetTwice(g, v, AllProps, current);
  }

  /** Every stop of a path the oracle returns is a node of the graph. */
  lemma PathStops(g: DiGraph, p: seq<string>, u: string, v: string)
    requires EdgesBetweenNodes(g) && u in g.nodes && IsPath(KeepLabels(g, HyperProps), p, u, v)
    ensures forall x :: x in p ==> x in g.nodes
  {
    var h := KeepLabels(g, HyperProps);
    forall x | x in p
      ensures x in g.nodes
    {
      var k :| 0 <= k < |p| && p[k] == x;
      if k > 0 {
        assert Adjacent(h, p[k - 1], p[k]);
        var e :| e in h.edges && e.src == p[k - 1] && e.dst == p[k];
      }
    }
  }

  /** The hyper-only copy built in `ascending_ways` and `ascendedhubs`:
      every edge of a snapshot of the edge list whose label is not a
      hyper label is removed from the copy by its endpoints. */
  method HyperOnly(g: DiGraph) returns (copy: DiGraph)
    requires SimpleEdges(g)
    ensures copy.nodes == g.nodes
    ensures forall e :: e in copy.edges <==> e in g.edges && e.relation in HyperProps
  {
    copy := g;
    var snapshot := copy.edges;
    var i := 0;
    while i < |snapshot|
      invariant 0 <= i <= |snapshot|
      invariant copy.nodes == g.nodes
      invariant forall e :: e in copy.edges <==> e in g.edges && (e in snapshot[..i] ==> e.relation in HyperProps)
    {
      var edge := snapshot[i];
      assert snapshot[..i + 1] == snapshot[..i] + [edge];
      if edge.relation !in HyperProps {
        copy := RemoveEdge(copy, edge.src, edge.dst);
      }
      i := i + 1;
    }
    assert snapshot[..i] == snapshot;
  }

  /** `populate`'s `expand` list and `scoremap`, which the rules extend. */
  class Expansion {
    var expand: seq<string>
    var scoremap: map<string, real>

    /** `expand = list(terms)` and `dict.fromkeys(expand, 0.5)`. */
    constructor (terms: seq<string>)
      ensures expand == terms
      ensures scoremap == map t | t in terms :: SeedScore
    {
      expand := terms;
      scoremap := map t | t in terms :: SeedScore;
    }

    /** One yield of a rule, as `populate` consumes it: append the term and
        record its rule's score. */
    method Yield(rule: Rule, g: DiGraph, paths: Paths, x: string,
                 ghost base: seq<string>, ghost baseScores: map<string, real>, ghost current: seq<string>)
      requires Extends(rule, g, paths, base, baseScores, expand, scoremap)
      requires base <= current && Fresh(g, current, expand)
      requires x in g.nodes && x !in current && Justified(rule, g, paths, current, x)
      modifies this
      ensures expand == old(expand) + [x] && scoremap == old(scoremap)[x := Score(rule)]
      ensures Extends(rule, g, paths, base, baseScores, expand, scoremap)
      ensures Fresh(g, current, expand)
    {
      ExtendsAppend(rule, g, paths, base, baseScores, expand, scoremap, current, x);
      expand := expand + [x];
      scoremap := scoremap[x := Score(rule)];
    }

    /** The innermost loop of `hyperframes` / `attr_hypers`: the `second`
        edges of one `first` successor `hop.dst` of `term`. */
    method TwoHopVia(rule: Rule, g: DiGraph, paths: Paths, term: string, hop: Edge,
                     ghost base: seq<string>, ghost baseScores: map<string, real>, current: seq<string>)
      requires rule == HyperFrames || rule == AttrHypers
      requires EdgesBetweenNodes(g)
      requires Extends(rule, g, paths, base, baseScores, expand, scoremap)
      requires base <= current && Fresh(g, current, expand)
      requires term in current && hop in g.edges && hop.src == term && hop.relation in FirstHop(rule)
      modifies this
      ensures Extends(rule, g, paths, base, baseScores, expand, scoremap) && Fresh(g, current, expand)
      ensures |old(expand)| <= |expand|
      ensures |expand| == |current| ==> LinksInto(g, hop.dst, SecondHop(rule), current) ==> hop.dst in current
    {
      var links := LinksFrom(hop.dst, g, SecondHop(rule));
      var k := 0;
      while k < |links|
        invariant k <= |links|
        invariant Extends(rule, g, paths, base, baseScores, expand, scoremap) && Fresh(g, current, expand)
        invariant |old(expand)| <= |expand|
        invariant |expand| == |current| ==> forall e :: e in links[..k] && e.dst in current ==> hop.dst in current
      {
        var link := links[k];
        TwoHopLink(rule, g, paths, term, hop, link, base, baseScores, current);
        TakeStep(links, k);
        k := k + 1;
      }
      assert links[..k] == links;
    }

    /** One `second` edge `link` out of `hop.dst`: `hop.dst` is yielded
        when it is unlisted and `link` leads into the list. */
    method TwoHopLink(rule: Rule, g: DiGraph, paths: Paths, term: string, hop: Edge, link: Edge,
                      ghost base: seq<string>, ghost baseScores: map<string, real>, current: seq<string>)
      requires rule == HyperFrames || rule == AttrHypers
      requires EdgesBetweenNodes(g)
      requires Extends(rule, g, paths, base, baseScores, expand, scoremap)
      requires base <= current && Fresh(g, current, expand)
      requires term in current && hop in g.edges && hop.src == term && hop.relation in FirstHop(rule)
      requires link in g.edges && link.src == hop.dst && link.relation in SecondHop(rule)
      modifies this
      ensures Extends(rule, g, paths, base, baseScores, expand, scoremap) && Fresh(g, current, expand)
      ensures |old(expand)| <= |expand|
      ensures |expand| == |current| && link.dst in current ==> hop.dst in current
    {
      if link.dst in current && link.src !in current {
        assert TwoHop(g, FirstHop(rule), SecondHop(rule), current, term, link.src);
        Yield(rule, g, paths, link.src, base, baseScores, current);
      }
    }

    /** One step of `hyperframes` / `attr_hypers`: the `first` successors
        of the listed `term`. */
    method TwoHopTerm(rule: Rule, g: DiGraph, paths: Paths, term: string,
                      ghost base: seq<string>, ghost baseScores: map<string, real>, current: seq<string>)
      requires rule == HyperFrames || rule == AttrHypers
      requires EdgesBetweenNodes(g)
      requires Extends(rule, g, paths, base, baseScores, expand, scoremap)
      requires base <= current && Fresh(g, current, expand) && term in current
      modifies this
      ensures Extends(rule, g, paths, base, baseScores, expand, scoremap) && Fresh(g, current, expand)
      ensures |expand| == |current| ==>
        forall x :: TwoHop(g, FirstHop(rule), SecondHop(rule), current, term, x) ==> x in current
    {
      var hops := LinksFrom(term, g, FirstHop(rule));
      var j := 0;
      while j < |hops|
        invariant j <= |hops|
        invariant Extends(rule, g, paths, base, baseScores, expand, scoremap) && Fresh(g, current, expand)
        invariant |expand| == |current| ==>
          forall e :: e in hops[..j] && LinksInto(g, e.dst, SecondHop(rule), current) ==> e.dst in current
      {
        var hop := hops[j];
        TwoHopVia(rule, g, paths, term, hop, base, baseScores, current);
        assert hops[..j + 1] == hops[..j] + [hop];
        j := j + 1;
      }
      assert hops[..j] == hops;
    }

    /** `hyperframes` (first: hyper, second: slot) and `attr_hypers`
        (first: attr_slot, second: hyper): for each listed term, each
        unlisted `first` successor with a `second` edge into the list is
        yielded. */
    method TwoHopRule(rule: Rule, g: DiGraph, paths: Paths)
      requires rule == HyperFrames || rule == AttrHypers
      requires EdgesBetweenNodes(g) && scoremap.Keys == Elems(expand)
      modifies this
      ensures Extends(rule, g, paths, old(expand), old(scoremap), expand, scoremap)
      ensures |expand| == |old(expand)| ==> Closed(rule, g, paths, expand)
    {
      ghost var base, baseScores := expand, scoremap;
      var i := 0;
      while i < |expand|
        invariant i <= |expand|
        invariant Extends(rule, g, paths, base, baseScores, expand, scoremap)
        invariant |expand| == |base| ==>
          forall t, x :: t in base[..i] && TwoHop(g, FirstHop(rule), SecondHop(rule), base, t, x) ==> x in base
        decreases |Unreached(g, expand)|, |expand| - i
      {
        var term := expand[i];
        var current := expand;
        TwoHopTerm(rule, g, paths, term, base, baseScores, current);
        if |expand| > |current| {
          UnreachedShrinks(g, current, expand);
        } else {
          assert expand == current;
        }
        if |expand| == |base| {
          assert current == base;
          TakeStep(base, i);
        }
        i := i + 1;
      }
      if |expand| == |base| {
        assert expand == base && base[..i] == base;
        TwoHopClosed(rule, g, paths, base);
      }
    }

    /** `hypoframes` and `prerequisites`: every unlisted node of the graph
        that passes the rule's test is yielded. */
    method NodeRule(rule: Rule, g: DiGraph, paths: Paths)
      requires rule == HypoFrames || rule == Prerequisites
      requires scoremap.Keys == Elems(expand)
      modifies this
      ensures Extends(rule, g, paths, old(expand), old(scoremap), expand, scoremap)
      ensures |expand| == |old(expand)| ==> Closed(rule, g, paths, expand)
    {
      ghost var base, baseScores := expand, scoremap;
      var i := 0;
      while i < |g.nodes|
        invariant i <= |g.nodes|
        invariant Extends(rule, g, paths, base, baseScores, expand, scoremap)
        invariant |expand| == |base| ==>
          forall x :: x in g.nodes[..i] && Justified(rule, g, paths, base, x) ==> x in base
      {
        ghost var before := expand;
        NodeStep(rule, g, paths, g.nodes[i], base, baseScores);
        if |expand| == |base| {
          FreshSame(g, base, before);
          FreshSame(g, base, expand);
          TakeStep(g.nodes, i);
        }
        i := i + 1;
      }
      if |expand| == |base| {
        FreshSame(g, base, expand);
        assert g.nodes[..i] == g.nodes;
      }
    }

    /** One node `term` of the graph, tested against the list as it is. */
    method NodeStep(rule: Rule, g: DiGraph, paths: Paths, term: string,
                    ghost base: seq<string>, ghost baseScores: map<string, real>)
      requires rule == HypoFrames || rule == Prerequisites
      requires term in g.nodes
      requires Extends(rule, g, paths, base, baseScores, expand, scoremap)
      modifies this
      ensures Extends(rule, g, paths, base, baseScores, expand, scoremap)
      ensures |old(expand)| <= |expand|
      ensures |expand| == |old(expand)| && Justified(rule, g, paths, expand, term) ==> term in expand
    {
      var current := expand;
      AdmitsJustified(rule, g, paths, term, current);
      if term !in current && Admits(rule, g, term, current) {
        Yield(rule, g, paths, term, base, baseScores, current);
      }
    }

    /** The `for stop in path_uv` loop shared by the two path rules. */
    method YieldStops(rule: Rule, g: DiGraph, paths: Paths, path: seq<string>,
                      ghost base: seq<string>, ghost baseScores: map<string, real>, current: seq<string>)
      requires Extends(rule, g, paths, base, baseScores, expand, scoremap)
      requires base <= current && Fresh(g, current, expand)
      requires forall x :: x in path ==> x in g.nodes && Justified(rule, g, paths, current, x)
      modifies this
      ensures Extends(rule, g, paths, base, baseScores, expand, scoremap) && Fresh(g, current, expand)
      ensures |old(expand)| <= |expand|
      ensures |expand| == |current| ==> forall x :: x in path ==> x in current
    {
      var k := 0;
      while k < |path|
        invariant k <= |path|
        invariant Extends(rule, g, paths, base, baseScores, expand, scoremap) && Fresh(g, current, expand)
        invariant |old(expand)| <= |expand|
        invariant |expand| == |current| ==> forall i :: 0 <= i < k ==> path[i] in current
      {
        YieldUnlisted(rule, g, paths, path[k], base, baseScores, current);
        k := k + 1;
      }
    }

    /** `if stop not in current: yield stop`. */
    method YieldUnlisted(rule: Rule, g: DiGraph, paths: Paths, x: string,
                         ghost base: seq<string>, ghost baseScores: map<string, real>, current: seq<string>)
      requires Extends(rule, g, paths, base, baseScores, expand, scoremap)
      requires base <= current && Fresh(g, current, expand)
      requires x in g.nodes && Justified(rule, g, paths, current, x)
      modifies this
      ensures Extends(rule, g, paths, base, baseScores, expand, scoremap) && Fresh(g, current, expand)
      ensures |old(expand)| <= |expand|
      ensures |expand| == |current| ==> x in current && expand == old(expand)
    {
      if x !in current {
        Yield(rule, g, paths, x, base, baseScores, current);
      }
    }

    /** One pair `(u, v)`: its path is walked when the pair passes the
        rule's test and the hyper-only copy has a path. */
    method PairStep(rule: Rule, g: DiGraph, paths: Paths, u: string, v: string,
                    ghost base: seq<string>, ghost baseScores: map<string, real>)
      requires rule == AscendingWays || rule == AscendedHubs
      requires EdgesBetweenNodes(g) && PathsSound(g, paths) && u in g.nodes && v in g.nodes && u != v
      requires Extends(rule, g, paths, base, baseScores, expand, scoremap)
      modifies this
      ensures Extends(rule, g, paths, base, baseScores, expand, scoremap)
      ensures |old(expand)| <= |expand|
      ensures |expand| == |old(expand)| && (u, v) in paths && PathVisited(rule, g, expand, (u, v)) ==>
        forall x :: x in paths[(u, v)] ==> x in expand
    {
      var current := expand;
      VisitsPath(rule, g, current, u, v);
      if Visits(rule, g, current, u, v) && (u, v) in paths {
        assert Pair(g, (u, v));
        PathStops(g, paths[(u, v)], u, v);
        YieldStops(rule, g, paths, paths[(u, v)], base, baseScores, current);
      }
    }

    /** The pairs `(nodes[a], v)` of `itertools.permutations`. */
    method PathsFrom(rule: Rule, g: DiGraph, paths: Paths, nodes: seq<string>, a: nat,
                     ghost base: seq<string>, ghost baseScores: map<string, real>)
      requires rule == AscendingWays || rule == AscendedHubs
      requires Valid(g) && PathsSound(g, paths) && nodes == g.nodes && a < |nodes|
      requires Extends(rule, g, paths, base, baseScores, expand, scoremap)
      modifies this
      ensures Extends(rule, g, paths, base, baseScores, expand, scoremap)
      ensures |old(expand)| <= |expand|
      ensures |expand| == |base| ==> forall uv ::
        uv in paths && Pair(g, uv) && uv.0 == nodes[a] && PathVisited(rule, g, base, uv) ==>
        forall x :: x in paths[uv] ==> x in base
    {
      var b := 0;
      while b < |nodes|
        invariant b <= |nodes|
        invariant Extends(rule, g, paths, base, baseScores, expand, scoremap)
        invariant |old(expand)| <= |expand|
        invariant |expand| == |base| ==> forall uv ::
          uv in paths && Pair(g, uv) && uv.0 == nodes[a] && uv.1 in nodes[..b] && PathVisited(rule, g, base, uv) ==>
          forall x :: x in paths[uv] ==> x in base
      {
        if a != b {
          PairStep(rule, g, paths, nodes[a], nodes[b], base, baseScores);
        }
        TakeStep(nodes, b);
        b := b + 1;
      }
      assert nodes[..b] == nodes;
    }

    /** `ascending_ways` and `ascendedhubs`: for every ordered pair of
        distinct nodes that passes the rule's test and has a path in the
        hyper-only copy, every unlisted stop of that path is yielded. */
    method PathRule(rule: Rule, g: DiGraph, paths: Paths)
      requires rule == AscendingWays || rule == AscendedHubs
      requires Valid(g) && PathsSound(g, paths) && scoremap.Keys == Elems(expand)
      modifies this
      ensures Extends(rule, g, paths, old(expand), old(scoremap), expand, scoremap)
      ensures |expand| == |old(expand)| ==> Closed(rule, g, paths, expand)
    {
      var graphCopy := HyperOnly(g);
      var nodes := graphCopy.nodes;
      ghost var base, baseScores := expand, scoremap;
      var a := 0;
      while a < |nodes|
        invariant a <= |nodes|
        invariant Extends(rule, g, paths, base, baseScores, expand, scoremap)
        invariant |expand| == |base| ==> forall uv ::
          uv in paths && Pair(g, uv) && uv.0 in nodes[..a] && PathVisited(rule, g, base, uv) ==>
          forall x :: x in paths[uv] ==> x in base
      {
        PathsFrom(rule, g, paths, nodes, a, base, baseScores);
        TakeStep(nodes, a);
        a := a + 1;
      }
      if |expand| == |base| {
        assert nodes[..a] == nodes && expand == base;
        PathsClosed(rule, g, paths, base);
      }
    }

    /** The innermost loop of `attrs_of_attrs`: the `attr_slot` successors
        of the unlisted attribute `attr.dst` of `term`. */
    method AttrsOfAttr(g: DiGraph, paths: Paths, term: string, attr: Edge,
                       ghost base: seq<string>, ghost baseScores: map<string, real>, current: seq<string>)
      requires EdgesBetweenNodes(g)
      requires Extends(AttrsOfAttrs, g, paths, base, baseScores, expand, scoremap)
      requires base <= current && Fresh(g, current, expand)
      requires term in current && attr in g.edges && attr.src == term && attr.relation in AttrProps
      requires attr.dst !in current
      modifies this
      ensures Extends(AttrsOfAttrs, g, paths, base, baseScores, expand, scoremap) && Fresh(g, current, expand)
      ensures |old(expand)| <= |expand|
      ensures |expand| == |current| ==> !AttrOfAttrVia(g, current, term, attr.dst)
    {
      var attrsOfAttr := LinksFrom(attr.dst, g, AttrProps);
      var k := 0;
      while k < |attrsOfAttr|
        invariant k <= |attrsOfAttr|
        invariant Extends(AttrsOfAttrs, g, paths, base, baseScores, expand, scoremap) && Fresh(g, current, expand)
        invariant |old(expand)| <= |expand|
        invariant |expand| == |current| ==> forall e :: e in attrsOfAttr[..k] && e.dst in current ==>
          !Adjacent(g, term, e.dst) && !Adjacent(g, e.dst, term)
      {
        var link := attrsOfAttr[k];
        AttrLink(g, paths, term, attr, link, base, baseScores, current);
        TakeStep(attrsOfAttr, k);
        k := k + 1;
      }
      assert attrsOfAttr[..k] == attrsOfAttr;
    }

    /** One `attr_slot` edge `link` of the unlisted attribute `attr.dst`:
        the attribute is yielded when `link` leads to a listed term adjacent
        to `term`. */
    method AttrLink(g: DiGraph, paths: Paths, term: string, attr: Edge, link: Edge,
                    ghost base: seq<string>, ghost baseScores: map<string, real>, current: seq<string>)
      requires EdgesBetweenNodes(g)
      requires Extends(AttrsOfAttrs, g, paths, base, baseScores, expand, scoremap)
      requires base <= current && Fresh(g, current, expand)
      requires term in current && attr in g.edges && attr.src == term && attr.relation in AttrProps
      requires attr.dst !in current
      requires link in g.edges && link.src == attr.dst && link.relation in AttrProps
      modifies this
      ensures Extends(AttrsOfAttrs, g, paths, base, baseScores, expand, scoremap) && Fresh(g, current, expand)
      ensures |old(expand)| <= |expand|
      ensures |expand| == |current| && link.dst in current ==>
        !Adjacent(g, term, link.dst) && !Adjacent(g, link.dst, term)
    {
      if link.dst in current {
        if Adjacent(g, attr.src, link.dst) || Adjacent(g, link.dst, attr.src) {
          assert AttrOfAttr(g, current, term, link.src);
          Yield(AttrsOfAttrs, g, paths, link.src, base, baseScores, current);
        }
      }
    }

    /** One step of `attrs_of_attrs`: the `attr_slot` successors of the
        listed `term`. */
    method AttrsOfTerm(g: DiGraph, paths: Paths, term: string,
                       ghost base: seq<string>, ghost baseScores: map<string, real>, current: seq<string>)
      requires EdgesBetweenNodes(g)
      requires Extends(AttrsOfAttrs, g, paths, base, baseScores, expand, scoremap)
      requires base <= current && Fresh(g, current, expand) && term in current
      modifies this
      ensures Extends(AttrsOfAttrs, g, paths, base, baseScores, expand, scoremap) && Fresh(g, current, expand)
      ensures |expand| == |current| ==> forall x :: AttrOfAttr(g, current, term, x) ==> x in current
    {
      var attrs := LinksFrom(term, g, AttrProps);
      var j := 0;
      while j < |attrs|
        invariant j <= |attrs|
        invariant Extends(AttrsOfAttrs, g, paths, base, baseScores, expand, scoremap) && Fresh(g, current, expand)
        invariant |expand| == |current| ==>
          forall e :: e in attrs[..j] && AttrOfAttrVia(g, current, term, e.dst) ==> e.dst in current
      {
        var attr := attrs[j];
        if attr.dst !in current {
          AttrsOfAttr(g, paths, term, attr, base, baseScores, current);
        }
        assert attrs[..j + 1] == attrs[..j] + [attr];
        j := j + 1;
      }
      assert attrs[..j] == attrs;
    }

    /** `attrs_of_attrs`: an unlisted `attr_slot` successor of a listed term
        is yielded when its own `attr_slot` edges reach a listed term that
        is adjacent to the first one in either direction. */
    method AttrsOfAttrsRule(g: DiGraph, paths: Paths)
      requires EdgesBetweenNodes(g) && scoremap.Keys == Elems(expand)
      modifies this
      ensures Extends(AttrsOfAttrs, g, paths, old(expand), old(scoremap), expand, scoremap)
      ensures |expand| == |old(expand)| ==> Closed(AttrsOfAttrs, g, paths, expand)
    {
      ghost var base, baseScores := expand, scoremap;
      var i := 0;
      while i < |expand|
        invariant i <= |expand|
        invariant Extends(AttrsOfAttrs, g, paths, base, baseScores, expand, scoremap)
        invariant |expand| == |base| ==>
          forall t, x :: t in base[..i] && AttrOfAttr(g, base, t, x) ==> x in base
        decreases |Unreached(g, expand)|, |expand| - i
      {
        var term := expand[i];
        var current := expand;
        AttrsOfTerm(g, paths, term, base, baseScores, current);
        if |expand| > |current| {
          UnreachedShrinks(g, current, expand);
        } else {
          assert expand == current;
        }
        if |expand| == |base| {
          assert current == base;
          TakeStep(base, i);
        }
        i := i + 1;
      }
      if |expand| == |base| {
        assert expand == base && base[..i] == base;
        AttrsClosed(g, paths, base);
      }
    }

    /** `method(expand, nx_graph)`, consumed by `populate`. */
    method Run(rule: Rule, g: DiGraph, paths: Paths)
      requires Valid(g) && PathsSound(g, paths) && scoremap.Keys == Elems(expand)
      modifies this
      ensures Extends(rule, g, paths, old(expand), old(scoremap), expand, scoremap)
      ensures |expand| == |old(expand)| ==> Closed(rule, g, paths, expand)
    {
      match rule
      case HyperFrames => TwoHopRule(rule, g, paths);
      case AttrHypers => TwoHopRule(rule, g, paths);
      case HypoFrames => NodeRule(rule, g, paths);
      case Prerequisites => NodeRule(rule, g, paths);
      case AscendingWays => PathRule(rule, g, paths);
      case AscendedHubs => PathRule(rule, g, paths);
      case AttrsOfAttrs => AttrsOfAttrsRule(g, paths);
    }
  }

  /** A list closed under a rule is a fixed point of it: running the rule
      once more adds nothing. */
  lemma ClosedRunsIdle(rule: Rule, g: DiGraph, paths: Paths, base: seq<string>, baseScores: map<string, real>,
                       expand: seq<string>, scoremap: map<string, real>)
    requires Extends(rule, g, paths, base, baseScores, expand, scoremap)
    requires Closed(rule, g, paths, base)
    ensures expand == base
  {
    if |expand| > |base| {
      ExtendsFirst(rule, g, paths, base, baseScores, expand, scoremap);
    }
  }

  /** The first term a rule appends is a node justified by the list it
      started from and missing from it. */
  lemma ExtendsFirst(rule: Rule, g: DiGraph, paths: Paths, base: seq<string>, baseScores: map<string, real>,
                     expand: seq<string>, scoremap: map<string, real>)
    requires Extends(rule, g, paths, base, baseScores, expand, scoremap)
    requires |expand| > |base|
    ensures expand[|base|] in g.nodes && expand[|base|] !in base
    ensures Justified(rule, g, paths, base, expand[|base|])
  {
    assert expand[..|base|] == base;
  }

  /** The term at position `k` was appended by a run of the rule
      `origin[k - |seeds|]`: a graph node that is not a seed, justified by
      that rule from the terms before it, and scored `scorebase` of it. */
  ghost predicate AddedBy(g: DiGraph, paths: Paths, seeds: seq<string>, expand: seq<string>,
                          scoremap: map<string, real>, origin: seq<Rule>, k: int)
    requires |seeds| <= k < |expand| && |origin| == |expand| - |seeds|
  {
    var m := origin[k - |seeds|];
    && expand[k] in g.nodes && expand[k] !in seeds
    && expand[k] in scoremap && scoremap[expand[k]] == Score(m)
    && Justified(m, g, paths, expand[..k], expand[k])
  }

  /** Everything `populate` has built from `seeds` with `methods`: seeds
      first and scored 0.5, then graph nodes that are not seeds, the one at
      `|seeds| + i` appended and scored by the rule `origin[i]`. */
  ghost predicate Derived(methods: seq<Rule>, g: DiGraph, paths: Paths, seeds: seq<string>,
                          expand: seq<string>, scoremap: map<string, real>, origin: seq<Rule>) {
    && seeds <= expand
    && scoremap.Keys == Elems(expand)
    && (forall t :: t in seeds ==> t in scoremap && scoremap[t] == SeedScore)
    && |origin| == |expand| - |seeds|
    && (forall i :: 0 <= i < |origin| ==> origin[i] in methods)
    && forall k :: |seeds| <= k < |expand| ==> AddedBy(g, paths, seeds, expand, scoremap, origin, k)
  }

  /** A run of `rule` keeps every earlier term's origin and score, and names
      `rule` as the origin of each term it appends. */
  lemma DerivedStep(methods: seq<Rule>, rule: Rule, g: DiGraph, paths: Paths, seeds: seq<string>,
                    e0: seq<string>, s0: map<string, real>, o0: seq<Rule>,
                    e1: seq<string>, s1: map<string, real>)
    returns (o1: seq<Rule>)
    requires Derived(methods, g, paths, seeds, e0, s0, o0) && rule in methods
    requires Extends(rule, g, paths, e0, s0, e1, s1)
    ensures o1 == o0 + seq(|e1| - |e0|, _ => rule)
    ensures Derived(methods, g, paths, seeds, e1, s1, o1)
  {
    o1 := o0 + seq(|e1| - |e0|, _ => rule);
    PrefixElems(seeds, e0);
    assert e1[..|seeds|] == e0[..|seeds|];
    forall k | |seeds| <= k < |e1|
      ensures AddedBy(g, paths, seeds, e1, s1, o1, k)
    {
      if k < |e0| {
        assert e1[k] == e0[k] && e1[..k] == e0[..k];
        assert AddedBy(g, paths, seeds, e0, s0, o0, k);
        assert o1[k - |seeds|] == o0[k - |seeds|];
      } else {
        assert o1[k - |seeds|] == rule;
        assert s1[e1[k]] == Score(rule) && Justified(rule, g, paths, e1[..k], e1[k]);
      }
    }
  }

  /** One pass of `populate`'s `for method in methods` loop. Terms already
      listed keep their origin and their score: a score is set once, by the
      rule that appended the term, and never overwritten. */
  method Pass(state: Expansion, g: DiGraph, paths: Paths, methods: seq<Rule>,
              ghost seeds: seq<string>, ghost origin: seq<Rule>)
    returns (ghost grown: seq<Rule>)
    requires Valid(g) && PathsSound(g, paths)
    requires Derived(methods, g, paths, seeds, state.expand, state.scoremap, origin)
    modifies state
    ensures Derived(methods, g, paths, seeds, state.expand, state.scoremap, grown)
    ensures origin <= grown
    ensures Fresh(g, old(state.expand), state.expand)
    ensures forall t :: t in old(state.scoremap) ==> t in state.scoremap && state.scoremap[t] == old(state.scoremap)[t]
    ensures |state.expand| == |old(state.expand)| ==> AllClosed(methods, g, paths, state.expand)
  {
    grown := origin;
    var j := 0;
    while j < |methods|
      invariant j <= |methods|
      invariant Fresh(g, old(state.expand), state.expand)
      invariant Derived(methods, g, paths, seeds, state.expand, state.scoremap, grown)
      invariant origin <= grown
      invariant forall t :: t in old(state.scoremap) ==> t in state.scoremap && state.scoremap[t] == old(state.scoremap)[t]
      invariant |state.expand| == |old(state.expand)| ==> AllClosed(methods[..j], g, paths, state.expand)
    {
      ghost var mid, midScores, midOrigin := state.expand, state.scoremap, grown;
      state.Run(methods[j], g, paths);
      grown := DerivedStep(methods, methods[j], g, paths, seeds, mid, midScores, midOrigin, state.expand, state.scoremap);
      FreshTrans(g, old(state.expand), mid, state.expand);
      KeepsScores(methods[j], g, paths, mid, midScores, state.expand, state.scoremap);
      if |state.expand| == |old(state.expand)| {
        assert state.expand == mid;
        AllClosedSnoc(methods, j, g, paths, state.expand);
      }
      j := j + 1;
    }
    assert methods[..j] == methods;
  }

  /** A rule run overwrites no score it found. */
  lemma KeepsScores(rule: Rule, g: DiGraph, paths: Paths, base: seq<string>, baseScores: map<string, real>,
                    expand: seq<string>, scoremap: map<string, real>)
    requires baseScores.Keys == Elems(base)
    requires Extends(rule, g, paths, base, baseScores, expand, scoremap)
    ensures forall t :: t in baseScores ==> t in scoremap && scoremap[t] == baseScores[t]
  {
  }

  /** Every rule of `ms` is closed on `e`. */
  ghost predicate AllClosed(ms: seq<Rule>, g: DiGraph, paths: Paths, e: seq<string>) {
    forall m :: m in ms ==> Closed(m, g, paths, e)
  }

  lemma AllClosedEach(ms: seq<Rule>, g: DiGraph, paths: Paths, e: seq<string>)
    requires AllClosed(ms, g, paths, e)
    ensures forall m :: m in ms ==> Closed(m, g, paths, e)
  {
  }

  lemma AllClosedSnoc(ms: seq<Rule>, j: nat, g: DiGraph, paths: Paths, e: seq<string>)
    requires j < |ms| && AllClosed(ms[..j], g, paths, e) && Closed(ms[j], g, paths, e)
    ensures AllClosed(ms[..j + 1], g, paths, e)
  {
    assert ms[..j + 1] == ms[..j] + [ms[j]];
  }

  /** `populate(terms, nx_graph, methods)`: passes of all `methods` until a
      pass leaves the set of terms unchanged. The result keeps the seeds as
      its prefix, scores seeds 0.5 and every other term by the rule that
      appended it (named in `origin`), and is closed under every rule. */
  method Populate(terms: seq<string>, g: DiGraph, paths: Paths, methods: seq<Rule>)
    returns (expanded: seq<string>, scores: map<string, real>, ghost origin: seq<Rule>)
    requires Valid(g) && PathsSound(g, paths)
    ensures Derived(methods, g, paths, terms, expanded, scores, origin)
    ensures forall m :: m in methods ==> Closed(m, g, paths, expanded)
  {
    var state := new Expansion(terms);
    origin := [];
    var exitMargin := 1;
    var initMargin := exitMargin;
    while true
      invariant fresh(state)
      invariant exitMargin == initMargin == 1
      invariant Derived(methods, g, paths, terms, state.expand, state.scoremap, origin)
      decreases |Unreached(g, state.expand)|, exitMargin
    {
      var prevTerms := state.expand;
      origin := Pass(state, g, paths, methods, terms, origin);
      PassProgress(g, prevTerms, state.expand);
      if Elems(prevTerms) == Elems(state.expand) {
        exitMargin := exitMargin - 1;
        if exitMargin == 0 {
          AllClosedEach(methods, g, paths, state.expand);
          break;
        }
      } else {
        exitMargin := initMargin;
      }
    }
    expanded, scores := state.expand, state.scoremap;
  }
}
