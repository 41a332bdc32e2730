/** A store of links under one relation with optional rules
    (lkbutils/relationprovider/__init__.py): `dry` refuses a repeated link,
    `nointerlinks` a link whose reverse is stored, `acyclic` a link that
    closes a directed cycle, found by a depth-first search. */
module RelationProvider {
  import opened Common
  import PyStr

  /** `_links`, a `defaultdict(list)`: the targets of each source, in the
      order they were added. */
  type Links = map<string, seq<string>>

  /** `links[n]` on the defaultdict: a missing source has no targets. */
  function Succ(links: Links, n: string): seq<string> {
    if n in links then links[n] else []
  }

  /** The same targets for every source; sources stored with an empty list
      are indistinguishable from missing ones. */
  ghost predicate SameLinks(a: Links, b: Links) {
    forall n :: Succ(a, n) == Succ(b, n)
  }

  /** `links[src].append(dest)` */
  function Linked(links: Links, src: string, dest: string): (r: Links)
    ensures Succ(r, src) == Succ(links, src) + [dest]
    ensures forall n :: n != src ==> Succ(r, n) == Succ(links, n)
  {
    links[src := Succ(links, src) + [dest]]
  }

  /** Every node the store mentions, as source or as target. */
  function Nodes(links: Links): set<string> {
    links.Keys + set n, v | n in links && v in links[n] :: v
  }

  lemma SuccInNodes(links: Links, n: string)
    ensures forall v :: v in Succ(links, n) ==> v in Nodes(links)
  {
    if n in links {
      forall v | v in links[n]
        ensures v in Nodes(links)
      {
      }
    }
  }

  function Members(s: seq<string>): set<string> {
    set x | x in s
  }

  /** Consecutive nodes of `p` are linked. */
  ghost predicate Chain(links: Links, p: seq<string>) {
    forall k :: 0 <= k < |p| - 1 ==> p[k + 1] in Succ(links, p[k])
  }

  /** A walk of at least one link that returns to its start. */
  ghost predicate IsCycle(links: Links, p: seq<string>) {
    |p| >= 2 && p[0] == p[|p| - 1] && Chain(links, p)
  }

  ghost predicate Acyclic(links: Links) {
    forall p :: !IsCycle(links, p)
  }

  /** The path `Cyclic` reports: linked nodes whose last one already
      occurs earlier in the path. */
  ghost predicate CyclicPath(links: Links, path: seq<string>) {
    |path| >= 2 && path[|path| - 1] in path[..|path| - 1] && Chain(links, path)
  }

  /** A reported path holds a cycle. */
  lemma CyclicPathNotAcyclic(links: Links, path: seq<string>)
    requires CyclicPath(links, path)
    ensures !Acyclic(links)
  {
    var last := path[|path| - 1];
    var i :| 0 <= i < |path| - 1 && path[i] == last;
    var cycle := path[i..];
    assert Chain(links, cycle) by {
      forall k | 0 <= k < |cycle| - 1
        ensures cycle[k + 1] in Succ(links, cycle[k])
      {
        assert cycle[k] == path[i + k] && cycle[k + 1] == path[i + k + 1];
      }
    }
    assert IsCycle(links, cycle);
  }

  /** Reading a source through the defaultdict stores an empty list for
      it and changes no targets. */
  lemma TouchSame(links: Links, n: string)
    ensures SameLinks(links[n := Succ(links, n)], links)
  {
  }

  lemma SameLinksLinked(a: Links, b: Links, src: string, dest: string)
    requires SameLinks(a, b)
    ensures SameLinks(Linked(a, src, dest), Linked(b, src, dest))
  {
    forall n
      ensures Succ(Linked(a, src, dest), n) == Succ(Linked(b, src, dest), n)
    {
      if n != src {
        assert Succ(a, n) == Succ(b, n);
      } else {
        assert Succ(a, src) == Succ(b, src);
      }
    }
  }

  /** Chains, and so cycles, only depend on the targets of each source. */
  lemma SameLinksChain(a: Links, b: Links, p: seq<string>)
    requires SameLinks(a, b)
    ensures Chain(a, p) <==> Chain(b, p)
  {
    assert forall k :: 0 <= k < |p| - 1 ==> Succ(a, p[k]) == Succ(b, p[k]);
  }

  lemma SameLinksAcyclic(a: Links, b: Links)
    requires SameLinks(a, b)
    ensures Acyclic(a) <==> Acyclic(b)
  {
    forall p
      ensures IsCycle(a, p) <==> IsCycle(b, p)
    {
      SameLinksChain(a, b, p);
    }
  }

  /** `visited` in the order the search finished its nodes: every target of
      a finished node finished before it. */
  ghost predicate Finished(links: Links, order: seq<string>) {
    forall i, v :: 0 <= i < |order| && v in Succ(links, order[i]) ==> v in order[..i]
  }

  lemma FinishedAppend(links: Links, order: seq<string>, n: string)
    requires Finished(links, order)
    requires forall v :: v in Succ(links, n) ==> v in order
    ensures Finished(links, order + [n])
  {
    var grown := order + [n];
    forall i, v | 0 <= i < |grown| && v in Succ(links, grown[i])
      ensures v in grown[..i]
    {
      if i < |order| {
        assert grown[..i] == order[..i];
      } else {
        assert grown[..i] == order;
      }
    }
  }

  /** The first position of `x` in `s`. */
  function IndexOf(s: seq<string>, x: string): (i: nat)
    requires x in s
    ensures i < |s| && s[i] == x && x !in s[..i]
  {
    if s[0] == x then 0
    else
      assert s[1..][IndexOf(s[1..], x)] == x;
      assert s[..1 + IndexOf(s[1..], x)] == [s[0]] + s[1..][..IndexOf(s[1..], x)];
      1 + IndexOf(s[1..], x)
  }

  /** Along a chain, each node finished strictly before the previous one. */
  lemma {:induction false} ChainDescends(links: Links, order: seq<string>, p: seq<string>, k: nat)
    requires Finished(links, order) && Chain(links, p)
    requires 0 < k < |p| && p[0] in order
    ensures p[k] in order && IndexOf(order, p[k]) < IndexOf(order, p[0])
    decreases k
  {
    if k > 1 {
      ChainDescends(links, order, p, k - 1);
    }
    var j := IndexOf(order, p[k - 1]);
    assert p[k] in Succ(links, order[j]);
    assert p[k] in order[..j];
    var m :| 0 <= m < j && order[m] == p[k];
    assert order[..m + 1][m] == p[k];
  }

  /** When every source has finished, the finishing order is a
      topological order and no cycle exists. */
  lemma FinishedAcyclic(links: Links, order: seq<string>)
    requires Finished(links, order)
    requires forall n :: n in links ==> n in order
    ensures Acyclic(links)
  {
    forall p | IsCycle(links, p)
      ensures false
    {
      assert p[1] in Succ(links, p[0]);
      ChainDescends(links, order, p, |p| - 1);
    }
  }

  /** `visit(node)`: `ancestors` is the path from the search root to the
      caller. Returns the path `Cyclic` reports, or the finished nodes. */
  method Visit(links: Links, node: string, ancestors: seq<string>, visited: set<string>, ghost order: seq<string>)
    returns (cycle: Option<seq<string>>, visitedOut: set<string>, ghost orderOut: seq<string>)
    requires node in Nodes(links) && node !in visited && node !in ancestors
    requires Members(ancestors) <= Nodes(links) && Chain(links, ancestors + [node])
    requires Finished(links, order) && visited == Members(order) && visited <= Nodes(links)
    requires forall a :: a in ancestors ==> a !in visited
    ensures cycle.Some? ==> CyclicPath(links, cycle.value)
    ensures cycle.None? ==>
      && Finished(links, orderOut) && visitedOut == Members(orderOut) && visitedOut <= Nodes(links)
      && node in visitedOut && visited <= visitedOut
      && forall a :: a in ancestors ==> a !in visitedOut
    decreases |Nodes(links) - Members(ancestors)|
  {
    var path := ancestors + [node];
    var succ := Succ(links, node);
    SuccInNodes(links, node);
    visitedOut, orderOut := visited, order;
    var k := 0;
    while k < |succ|
      invariant k <= |succ|
      invariant Finished(links, orderOut) && visitedOut == Members(orderOut) && visitedOut <= Nodes(links)
      invariant visited <= visitedOut
      invariant forall a :: a in path ==> a !in visitedOut
      invariant forall v :: v in succ[..k] ==> v in visitedOut
    {
      var linked := succ[k];
      if linked in path {
        Closes(links, path, linked);
        return Some(path + [linked]), visitedOut, orderOut;
      }
      ChainStep(links, path, linked);
      if linked !in visitedOut {
        Shrinks(Nodes(links), ancestors, node);
        var found;
        found, visitedOut, orderOut := Visit(links, linked, path, visitedOut, orderOut);
        if found.Some? {
          return found, visitedOut, orderOut;
        }
      }
      TakeStep(succ, k);
      k := k + 1;
    }
    assert succ[..k] == succ;
    FinishedAppend(links, orderOut, node);
    visitedOut := visitedOut + {node};
    orderOut := orderOut + [node];
    cycle := None;
  }

  lemma ChainStep(links: Links, path: seq<string>, linked: string)
    requires Chain(links, path) && |path| > 0 && linked in Succ(links, path[|path| - 1])
    ensures Chain(links, path + [linked])
  {
  }

  lemma Closes(links: Links, path: seq<string>, linked: string)
    requires Chain(links, path) && |path| > 0 && linked in Succ(links, path[|path| - 1])
    requires linked in path
    ensures CyclicPath(links, path + [linked])
  {
    ChainStep(links, path, linked);
    assert (path + [linked])[..|path|] == path;
  }

  lemma Shrinks(nodes: set<string>, ancestors: seq<string>, node: string)
    requires node in nodes && node !in ancestors
    ensures |nodes - Members(ancestors + [node])| < |nodes - Members(ancestors)|
  {
    var rest := nodes - Members(ancestors);
    assert nodes - Members(ancestors + [node]) == rest - {node};
  }

  /** `_check_acyclic` after the link is in `links`: a search from every
      source in turn. A cycle is reported exactly when the links hold one. */
  method FindCycle(links: Links) returns (cycle: Option<seq<string>>)
    ensures cycle.None? <==> Acyclic(links)
    ensures cycle.Some? ==> CyclicPath(links, cycle.value)
  {
    var keys := links.Keys;
    var visited: set<string> := {};
    ghost var order: seq<string> := [];
    while keys != {}
      invariant keys <= links.Keys
      invariant Finished(links, order) && visited == Members(order) && visited <= Nodes(links)
      invariant forall n :: n in links && n !in keys ==> n in visited
      decreases keys
    {
      var node :| node in keys;
      if node !in visited {
        cycle, visited, order := Visit(links, node, [], visited, order);
        if cycle.Some? {
          CyclicPathNotAcyclic(links, cycle.value);
          return;
        }
      }
      keys := keys - {node};
    }
    FinishedAcyclic(links, order);
    cycle := None;
  }

  /** The `relation` text as `format` renders it: `None` when unset. */
  function RelationText(relation: Option<string>): string {
    match relation
    case None => "None"
    case Some(r) => r
  }

  /** The text of a `Cyclic` error. */
  function CyclicMessage(relation: Option<string>, path: seq<string>): (m: string)
    ensures |m| >= 22 && m[..22] == "cyclic path found on \""
    ensures PyStr.Contains(m, RelationText(relation))
    ensures forall i :: 0 <= i < |path| ==> PyStr.Contains(m, path[i])
  {
    var head := "cyclic path found on \"";
    var name := RelationText(relation);
    var joined := PyStr.Join(" -> ", path);
    assert PyStr.Contains(head + name + ("\": " + joined), name) by {
      PyStr.ContainsSelf(name);
      PyStr.ContainsWithin(head, name, "\": " + joined, name);
    }
    assert forall i :: 0 <= i < |path| ==> PyStr.Contains(head + name + "\": " + joined, path[i]) by {
      forall i | 0 <= i < |path|
        ensures PyStr.Contains(head + name + "\": " + joined, path[i])
      {
        PyStr.JoinContains(" -> ", path, i);
        PyStr.ContainsWithin(head + name + "\": ", joined, [], path[i]);
        assert head + name + "\": " + joined + [] == head + name + "\": " + joined;
      }
    }
    assert head + name + ("\": " + joined) == head + name + "\": " + joined;
    head + name + "\": " + joined
  }

  function LinkExistsMessage(src: string, dest: string): string {
    "link exists: " + src + " -> " + dest
  }

  function InverseLinkMessage(src: string, dest: string): string {
    "inverse link found against " + src + " -> " + dest
  }

  datatype Refusal =
    | RedundantRelation(message: string)
    | InterLink(message: string)
    | Cyclic(message: string, path: seq<string>)

  class RelationChecker {
    const relation: Option<string>
    const dry: bool
    const nointerlinks: bool
    const acyclic: bool
    var links: Links

    constructor (relation: Option<string>, dry: bool, nointerlinks: bool, acyclic: bool)
      ensures this.relation == relation && this.dry == dry
      ensures this.nointerlinks == nointerlinks && this.acyclic == acyclic
      ensures links == map[]
    {
      this.relation := relation;
      this.dry := dry;
      this.nointerlinks := nointerlinks;
      this.acyclic := acyclic;
      links := map[];
    }

    /** The link would be refused by `_check_dry`. */
    ghost predicate Redundant(src: string, dest: string)
      reads this
    {
      dry && dest in Succ(links, src)
    }

    /** The link would be refused by `_check_nointerlinks`. */
    ghost predicate Inverse(src: string, dest: string)
      reads this
    {
      nointerlinks && src in Succ(links, dest)
    }

    /** The link would be refused by `_check_acyclic`. */
    ghost predicate Closing(src: string, dest: string)
      reads this
    {
      acyclic && !Acyclic(Linked(links, src, dest))
    }

    /** `_check_acyclic` works on `self._links.copy()`, a shallow copy: the
        list of `src` is the stored one when `src` is already a key, which
        the defaultdict lookups of the earlier checks make it. */
    predicate SharesList(src: string, dest: string)
      reads this
    {
      src in links || dry || (nointerlinks && dest == src)
    }

    /** `add(src, dest)` as written: the checks in the order dry,
        nointerlinks, acyclic, then the append. The acyclic check appends
        through the shared list, so the stored link survives a `Cyclic`
        refusal and is recorded twice on success. */
    method Add(src: string, dest: string) returns (r: Result<(string, string), Refusal>)
      modifies this
      ensures old(links).Keys <= links.Keys && (r.Ok? ==> src in links)
      ensures links.Keys <= old(links).Keys + {src} + (if nointerlinks then {dest} else {})
      ensures old(Redundant(src, dest)) ==>
        r == Err(RedundantRelation(LinkExistsMessage(src, dest))) && SameLinks(links, old(links))
      ensures old(!Redundant(src, dest) && Inverse(src, dest)) ==>
        r == Err(InterLink(InverseLinkMessage(src, dest))) && SameLinks(links, old(links))
      ensures old(!Redundant(src, dest) && !Inverse(src, dest) && Closing(src, dest)) ==>
        && r.Err? && r.error.Cyclic?
        && CyclicPath(Linked(old(links), src, dest), r.error.path)
        && r.error.message == CyclicMessage(relation, r.error.path)
        && SameLinks(links, if old(SharesList(src, dest)) then Linked(old(links), src, dest) else old(links))
      ensures old(!Redundant(src, dest) && !Inverse(src, dest) && !Closing(src, dest)) ==>
        && r == Ok((src, dest))
        && SameLinks(links,
             if acyclic && old(SharesList(src, dest)) then Linked(Linked(old(links), src, dest), src, dest)
             else Linked(old(links), src, dest))
    {
      ghost var start := links;
      if dry {
        TouchSame(links, src);
        links := links[src := Succ(links, src)];
        if dest in links[src] {
          return Err(RedundantRelation(LinkExistsMessage(src, dest)));
        }
      }
      if nointerlinks {
        TouchSame(links, dest);
        links := links[dest := Succ(links, dest)];
        if src in links[dest] {
          return Err(InterLink(InverseLinkMessage(src, dest)));
        }
      }
      assert SameLinks(links, start);
      assert src in links <==> old(SharesList(src, dest));
      SameLinksLinked(links, start, src, dest);
      ghost var intended := Linked(start, src, dest);
      if acyclic {
        var copy := Linked(links, src, dest);
        SameLinksAcyclic(copy, intended);
        if src in links {
          links := copy;
        }
        var cycle := FindCycle(copy);
        if cycle.Some? {
          SameLinksChain(copy, intended, cycle.value);
          return Err(Cyclic(CyclicMessage(relation, cycle.value), cycle.value));
        }
        SameLinksLinked(copy, intended, src, dest);
      }
      links := Linked(links, src, dest);
      r := Ok((src, dest));
    }

    /** `add` with the acyclic check run on a copy that does not share the
        stored lists: a refusal leaves the links as they were, a success
        records the link once, and an acyclic store stays acyclic. */
    method AddIsolated(src: string, dest: string) returns (r: Result<(string, string), Refusal>)
      modifies this
      ensures old(links).Keys <= links.Keys && (r.Ok? ==> src in links)
      ensures links.Keys <= old(links).Keys + {src} + (if nointerlinks then {dest} else {})
      ensures old(Redundant(src, dest)) ==> r == Err(RedundantRelation(LinkExistsMessage(src, dest)))
      ensures old(!Redundant(src, dest) && Inverse(src, dest)) ==> r == Err(InterLink(InverseLinkMessage(src, dest)))
      ensures old(!Redundant(src, dest) && !Inverse(src, dest) && Closing(src, dest)) ==>
        && r.Err? && r.error.Cyclic?
        && CyclicPath(Linked(old(links), src, dest), r.error.path)
        && r.error.message == CyclicMessage(relation, r.error.path)
      ensures r.Ok? <==> old(!Redundant(src, dest) && !Inverse(src, dest) && !Closing(src, dest))
      ensures r.Ok? ==> r.value == (src, dest) && SameLinks(links, Linked(old(links), src, dest))
      ensures r.Err? ==> SameLinks(links, old(links))
      ensures acyclic && Acyclic(old(links)) ==> Acyclic(links)
    {
      ghost var start := links;
      if dry {
        TouchSame(links, src);
        links := links[src := Succ(links, src)];
        if dest in links[src] {
          SameLinksAcyclic(links, start);
          return Err(RedundantRelation(LinkExistsMessage(src, dest)));
        }
      }
      if nointerlinks {
        TouchSame(links, dest);
        links := links[dest := Succ(links, dest)];
        if src in links[dest] {
          SameLinksAcyclic(links, start);
          return Err(InterLink(InverseLinkMessage(src, dest)));
        }
      }
      assert SameLinks(links, start);
      SameLinksAcyclic(links, start);
      SameLinksLinked(links, start, src, dest);
      ghost var intended := Linked(start, src, dest);
      if acyclic {
        var cycle := FindCycle(Linked(links, src, dest));
        SameLinksAcyclic(Linked(links, src, dest), intended);
        if cycle.Some? {
          SameLinksChain(Linked(links, src, dest), intended, cycle.value);
          return Err(Cyclic(CyclicMessage(relation, cycle.value), cycle.value));
        }
      }
      links := Linked(links, src, dest);
      r := Ok((src, dest));
    }
  }

  /** A single link is no cycle. */
  lemma OneLinkAcyclic(a: string, b: string)
    requires a != b
    ensures Acyclic(Linked(map[], a, b))
  {
    var links := Linked(map[], a, b);
    var order := [b, a];
    assert Succ(links, b) == [] && Succ(links, a) == [b];
    forall i, v | 0 <= i < |order| && v in Succ(links, order[i])
      ensures v in order[..i]
    {
      if i == 1 {
        assert order[..i] == [b];
      }
    }
    FinishedAcyclic(links, order);
  }

  /** Two links in a row are no cycle. */
  lemma TwoLinksAcyclic(a: string, b: string, c: string)
    requires a != b && b != c && a != c
    ensures Acyclic(Linked(Linked(map[], a, b), b, c))
  {
    var links := Linked(Linked(map[], a, b), b, c);
    var order := [c, b, a];
    assert Succ(links, c) == [] && Succ(links, b) == [c] && Succ(links, a) == [b];
    forall i, v | 0 <= i < |order| && v in Succ(links, order[i])
      ensures v in order[..i]
    {
      if i == 1 {
        assert order[..i] == [c];
      } else if i == 2 {
        assert order[..i] == [c, b];
      }
    }
    FinishedAcyclic(links, order);
  }

  /** Adding a link twice under `dry` is refused the second time. */
  method DryExample() returns (first: Result<(string, string), Refusal>, second: Result<(string, string), Refusal>)
    ensures first == Ok(("Tokyo", "Saitama"))
    ensures second == Err(RedundantRelation("link exists: Tokyo -> Saitama"))
  {
    var checker := new RelationChecker(Some("next_to"), true, false, false);
    first := checker.Add("Tokyo", "Saitama");
    assert Succ(checker.links, "Tokyo") == ["Saitama"];
    second := checker.Add("Tokyo", "Saitama");
    assert LinkExistsMessage("Tokyo", "Saitama") == "link exists: Tokyo -> Saitama";
  }

  /** Under `nointerlinks` the reverse of a stored link is refused. */
  method InterLinkExample() returns (first: Result<(string, string), Refusal>, second: Result<(string, string), Refusal>)
    ensures first == Ok(("Yamanashi", "Tokyo"))
    ensures second == Err(InterLink("inverse link found against Tokyo -> Yamanashi"))
  {
    var checker;
    checker, first := InterLinkFirst();
    second := checker.Add("Tokyo", "Yamanashi");
    assert InverseLinkMessage("Tokyo", "Yamanashi") == "inverse link found against Tokyo -> Yamanashi";
  }

  /** The first, accepted link of the `nointerlinks` example. */
  method InterLinkFirst() returns (checker: RelationChecker, first: Result<(string, string), Refusal>)
    ensures fresh(checker) && !checker.dry && checker.nointerlinks && !checker.acyclic
    ensures first == Ok(("Yamanashi", "Tokyo"))
    ensures "Tokyo" in Succ(checker.links, "Yamanashi")
  {
    checker := new RelationChecker(Some("next_to"), false, true, false);
    assert Succ(checker.links, "Tokyo") == [];
    first := checker.Add("Yamanashi", "Tokyo");
    assert Succ(checker.links, "Yamanashi") == ["Tokyo"];
  }

  /** Under `acyclic`, `add(a, b)` and `add(b, c)` are accepted. */
  method ChainOfTwo() returns (checker: RelationChecker)
    ensures fresh(checker) && checker.relation == None && checker.acyclic
    ensures !checker.dry && !checker.nointerlinks && "b" in checker.links
    ensures Succ(checker.links, "a") == ["b"] && Succ(checker.links, "b") == ["c"]
  {
    checker := new RelationChecker(None, false, false, true);
    ghost var one := Linked(map[], "a", "b");
    OneLinkAcyclic("a", "b");
    var r1 := checker.Add("a", "b");
    ghost var l1 := checker.links;
    assert "b" !in l1;
    TwoLinksAcyclic("a", "b", "c");
    SameLinksLinked(l1, one, "b", "c");
    SameLinksAcyclic(Linked(l1, "b", "c"), Linked(one, "b", "c"));
    var r2 := checker.Add("b", "c");
    assert Succ(l1, "a") == Succ(one, "a") == ["b"];
    assert Succ(checker.links, "a") == Succ(Linked(l1, "b", "c"), "a");
    assert Succ(checker.links, "b") == Succ(Linked(l1, "b", "c"), "b");
  }

  /** Under `acyclic`, after `a -> b` and `b -> c`, the link `b -> a`
      closes the cycle `a -> b -> a` and is refused, yet the stored list
      of `b` already holds `a`: the store is left with a cycle. */
  method CyclicRefusalKeepsLink() returns (refusal: Result<(string, string), Refusal>, stored: seq<string>, closed: bool)
    ensures refusal.Err? && refusal.error.Cyclic?
    ensures stored == ["c", "a"]
    ensures closed
  {
    var checker := ChainOfTwo();
    assert IsCycle(Linked(checker.links, "b", "a"), ["a", "b", "a"]);
    refusal := checker.Add("b", "a");
    stored := Succ(checker.links, "b");
    assert IsCycle(checker.links, ["a", "b", "a"]);
    closed := "a" in Succ(checker.links, "b") && "b" in Succ(checker.links, "a");
  }

  /** With `dry` and `acyclic`, one accepted `add` records its link twice:
      `_check_dry` has made `src` a key, so the acyclic check appends
      through the stored list before `add` appends again. */
  method DuplicateOnAccept() returns (accepted: Result<(string, string), Refusal>, stored: seq<string>)
    ensures accepted == Ok(("Tokushima", "Kouchi"))
    ensures stored == ["Kouchi", "Kouchi"]
  {
    var checker := new RelationChecker(Some("next_to"), true, false, true);
    OneLinkAcyclic("Tokushima", "Kouchi");
    accepted := checker.Add("Tokushima", "Kouchi");
    stored := Succ(checker.links, "Tokushima");
  }

  /** The corrected `add` accepts the same two links. */
  method IsolatedChainOfTwo() returns (checker: RelationChecker)
    ensures fresh(checker) && checker.relation == None && checker.acyclic
    ensures !checker.dry && !checker.nointerlinks
    ensures Succ(checker.links, "a") == ["b"] && Succ(checker.links, "b") == ["c"]
  {
    checker := new RelationChecker(None, false, false, true);
    ghost var one := Linked(map[], "a", "b");
    OneLinkAcyclic("a", "b");
    var r1 := checker.AddIsolated("a", "b");
    ghost var l1 := checker.links;
    TwoLinksAcyclic("a", "b", "c");
    SameLinksLinked(l1, one, "b", "c");
    SameLinksAcyclic(Linked(l1, "b", "c"), Linked(one, "b", "c"));
    var r2 := checker.AddIsolated("b", "c");
    assert Succ(l1, "a") == Succ(one, "a") == ["b"];
    assert Succ(checker.links, "a") == Succ(Linked(l1, "b", "c"), "a");
    assert Succ(checker.links, "b") == Succ(Linked(l1, "b", "c"), "b");
  }

  /** The corrected `add` refuses the same link and leaves the store as it
      was, without a cycle. */
  method IsolatedRefusalExample() returns (refusal: Result<(string, string), Refusal>, stored: seq<string>)
    ensures refusal.Err? && refusal.error.Cyclic?
    ensures stored == ["c"]
  {
    var checker := IsolatedChainOfTwo();
    assert IsCycle(Linked(checker.links, "b", "a"), ["a", "b", "a"]);
    refusal := checker.AddIsolated("b", "a");
    stored := Succ(checker.links, "b");
  }
}
