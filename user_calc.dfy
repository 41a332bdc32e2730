/** The set and list logic of the evaluation pipeline
    (jp_civil_law/build/easy_analysis/user_calc.py): tie-aware answer ranks
    over a similarity ordering, hierarchy reduction and bridging of term
    sets over the `hyper`/`hyperx` part of the civil-law graph, and the
    zero-cut filters that confine two expanded term sets to what they
    share. */
module UserCalc {
  import opened Common
  import opened Graphs

  // ---------------------------------------------------------------------
  // keymap_ranks

  /** One entry of `order`: a pair of case keys and their similarity. The
      order is descending by score. */
  datatype Scored = Scored(pair: (string, string), score: real)

  /** `KeyError` from `equivs.remove(qkey)` when a group does not mention
      the query, and the `ValueError` raised when no group holds the
      answer. */
  datatype RankError = QueryMissing | NotRanked

  function Flatten<T>(groups: seq<seq<T>>): seq<T> {
    if groups == [] then [] else groups[0] + Flatten(groups[1..])
  }

  /** `itertools.groupby(order, key=score)`: the maximal runs of
      consecutive entries with equal scores. */
  function GroupBy(order: seq<Scored>): (groups: seq<seq<Scored>>)
    ensures Flatten(groups) == order
    ensures forall k :: 0 <= k < |groups| ==> |groups[k]| > 0
    ensures forall k, i :: 0 <= k < |groups| && 0 <= i < |groups[k]| ==> groups[k][i].score == groups[k][0].score
    ensures forall k :: 0 <= k < |groups| - 1 ==> groups[k][0].score != groups[k + 1][0].score
    ensures |groups| > 0 ==> groups[0][0] == order[0]
  {
    if order == [] then []
    else
      var rest := GroupBy(order[1..]);
      if rest != [] && rest[0][0].score == order[0].score then
        var groups := [[order[0]] + rest[0]] + rest[1..];
        assert Flatten(rest) == rest[0] + Flatten(rest[1..]);
        assert Flatten(groups) == [order[0]] + rest[0] + Flatten(rest[1..]);
        assert order == [order[0]] + order[1..];
        groups
      else
        var groups := [[order[0]]] + rest;
        assert groups[1..] == rest;
        assert order == [order[0]] + order[1..];
        groups
  }

  /** The key `x` occurs in some pair of `order`. */
  predicate Mentioned(order: seq<Scored>, x: string) {
    exists i :: 0 <= i < |order| && (x == order[i].pair.0 || x == order[i].pair.1)
  }

  /** The keys the pairs of a group mention: `set(sum(list(keypair) ...))`. */
  function Keys(group: seq<Scored>): set<string> {
    if group == [] then {} else {group[0].pair.0, group[0].pair.1} + Keys(group[1..])
  }

  /** A key belongs to a group's keys exactly when some pair of the group
      mentions it. */
  lemma {:induction false} KeysMention(group: seq<Scored>, x: string)
    ensures x in Keys(group) <==> Mentioned(group, x)
  {
    if group != [] {
      KeysMention(group[1..], x);
      if Mentioned(group[1..], x) {
        var i :| 0 <= i < |group[1..]| && (x == group[1..][i].pair.0 || x == group[1..][i].pair.1);
        assert group[i + 1] == group[1..][i];
      }
      if Mentioned(group, x) && x != group[0].pair.0 && x != group[0].pair.1 {
        var i :| 0 <= i < |group| && (x == group[i].pair.0 || x == group[i].pair.1);
        assert group[1..][i - 1] == group[i];
      }
    }
  }

  /** `equivs` after `equivs.remove(qkey)`. */
  function Equivs(group: seq<Scored>, qkey: string): set<string> {
    Keys(group) - {qkey}
  }

  /** The search goes past this group: it mentions the query but not the
      answer. */
  predicate Passes(group: seq<Scored>, qkey: string, artkey: string) {
    qkey in Keys(group) && artkey !in Equivs(group, qkey)
  }

  /** The index of the group at which the search stops: the first one that
      does not pass, or the number of groups. */
  function FirstStop(groups: seq<seq<Scored>>, qkey: string, artkey: string): (j: nat)
    ensures j <= |groups|
    ensures forall k :: 0 <= k < j ==> Passes(groups[k], qkey, artkey)
    ensures j < |groups| ==> !Passes(groups[j], qkey, artkey)
  {
    if groups == [] then 0
    else if !Passes(groups[0], qkey, artkey) then 0
    else 1 + FirstStop(groups[1..], qkey, artkey)
  }

  /** The number of keys other than the query in the first `j` groups. */
  function Before(groups: seq<seq<Scored>>, j: nat, qkey: string): nat
    requires j <= |groups|
  {
    if j == 0 then 0 else Before(groups, j - 1, qkey) + |Equivs(groups[j - 1], qkey)|
  }

  /** The rank of `artkey`: the keys of all earlier groups, plus the middle
      of its own tie group of `k` keys, `1 + (k - 1) / 2`. */
  function RankIn(groups: seq<seq<Scored>>, qkey: string, artkey: string): Result<real, RankError> {
    var j := FirstStop(groups, qkey, artkey);
    if j == |groups| then Err(NotRanked)
    else if qkey !in Keys(groups[j]) then Err(QueryMissing)
    else Ok(Before(groups, j, qkey) as real + 1.0 + (|Equivs(groups[j], qkey)| - 1) as real / 2.0)
  }

  lemma FirstStopAt(groups: seq<seq<Scored>>, qkey: string, artkey: string, j: nat)
    requires j <= |groups|
    requires forall k :: 0 <= k < j ==> Passes(groups[k], qkey, artkey)
    requires j < |groups| ==> !Passes(groups[j], qkey, artkey)
    ensures FirstStop(groups, qkey, artkey) == j
  {
  }

  /** The inner loop of `keymap_ranks` for one answer key. */
  method RankOf(order: seq<Scored>, qkey: string, artkey: string) returns (r: Result<real, RankError>)
    ensures r == RankIn(GroupBy(order), qkey, artkey)
  {
    var groups := GroupBy(order);
    var rank := 0.0;
    var i := 0;
    while i < |groups|
      invariant i <= |groups|
      invariant forall k :: 0 <= k < i ==> Passes(groups[k], qkey, artkey)
      invariant rank == Before(groups, i, qkey) as real
    {
      var equivs := Keys(groups[i]);
      if qkey !in equivs {
        FirstStopAt(groups, qkey, artkey, i);
        return Err(QueryMissing);
      }
      equivs := equivs - {qkey};
      if artkey in equivs {
        FirstStopAt(groups, qkey, artkey, i);
        return Ok(rank + (1.0 + (|equivs| - 1) as real / 2.0));
      }
      rank := rank + |equivs| as real;
      i := i + 1;
    }
    FirstStopAt(groups, qkey, artkey, i);
    r := Err(NotRanked);
  }

  /** Each rank is at most the next one. */
  predicate Ascending(s: seq<real>) {
    forall i :: 0 < i < |s| ==> s[i - 1] <= s[i]
  }

  /** In an ascending list every rank is at most every later one. */
  lemma {:induction false} AscendingPairs(s: seq<real>, i: nat, j: nat)
    requires Ascending(s) && i <= j < |s|
    ensures s[i] <= s[j]
  {
    if i < j {
      AscendingPairs(s, i, j - 1);
    }
  }

  function Insert(x: real, s: seq<real>): (r: seq<real>)
    requires Ascending(s)
    ensures Ascending(r) && multiset(r) == multiset(s) + multiset{x}
    ensures |r| > 0 && (r[0] == x || (s != [] && r[0] == s[0]))
  {
    if s == [] || x <= s[0] then [x] + s
    else
      var rest := Insert(x, s[1..]);
      assert s == [s[0]] + s[1..];
      [s[0]] + rest
  }

  /** `list.sort()` on the ranks. */
  function SortReals(s: seq<real>): (r: seq<real>)
    ensures Ascending(r) && multiset(r) == multiset(s)
  {
    if s == [] then []
    else
      assert s == [s[0]] + s[1..];
      Insert(s[0], SortReals(s[1..]))
  }

  /** The values of a list of rank outcomes in order, or the error of the
      first failing one. */
  function Collect(rs: seq<Result<real, RankError>>): Result<seq<real>, RankError> {
    if rs == [] then Ok([])
    else match rs[0]
      case Err(e) => Err(e)
      case Ok(x) =>
        match Collect(rs[1..])
        case Err(e) => Err(e)
        case Ok(xs) => Ok([x] + xs)
  }

  /** The outcome of the rank search for each answer key. */
  function Outcomes(groups: seq<seq<Scored>>, qkey: string, artkeys: seq<string>): (rs: seq<Result<real, RankError>>)
    ensures |rs| == |artkeys|
    ensures forall i :: 0 <= i < |artkeys| ==> rs[i] == RankIn(groups, qkey, artkeys[i])
  {
    seq(|artkeys|, i requires 0 <= i < |artkeys| => RankIn(groups, qkey, artkeys[i]))
  }

  /** The ranks of `artkeys` in their order, or the error of the first one
      that has none. */
  function Ranks(groups: seq<seq<Scored>>, qkey: string, artkeys: seq<string>): Result<seq<real>, RankError> {
    Collect(Outcomes(groups, qkey, artkeys))
  }

  lemma {:induction false} CollectAppend(a: seq<Result<real, RankError>>, b: seq<Result<real, RankError>>)
    ensures Collect(a).Err? ==> Collect(a + b) == Collect(a)
    ensures Collect(a).Ok? && Collect(b).Err? ==> Collect(a + b) == Collect(b)
    ensures Collect(a).Ok? && Collect(b).Ok? ==> Collect(a + b) == Ok(Collect(a).value + Collect(b).value)
  {
    if a == [] {
      assert a + b == b;
      if Collect(b).Ok? {
        assert [] + Collect(b).value == Collect(b).value;
      }
    } else {
      assert (a + b)[1..] == a[1..] + b;
      assert (a + b)[0] == a[0];
      CollectAppend(a[1..], b);
      var ra, rb := Collect(a[1..]), Collect(b);
      if a[0].Ok? && ra.Ok? && rb.Ok? {
        assert [a[0].value] + (ra.value + rb.value) == ([a[0].value] + ra.value) + rb.value;
      }
    }
  }

  /** Ranking two lists of answer keys one after the other: an error of the
      first list wins, then an error of the second, else the ranks join. */
  lemma RanksAppend(groups: seq<seq<Scored>>, qkey: string, a: seq<string>, b: seq<string>)
    ensures Ranks(groups, qkey, a).Err? ==> Ranks(groups, qkey, a + b) == Ranks(groups, qkey, a)
    ensures Ranks(groups, qkey, a).Ok? && Ranks(groups, qkey, b).Err? ==> Ranks(groups, qkey, a + b) == Ranks(groups, qkey, b)
    ensures Ranks(groups, qkey, a).Ok? && Ranks(groups, qkey, b).Ok? ==>
      Ranks(groups, qkey, a + b) == Ok(Ranks(groups, qkey, a).value + Ranks(groups, qkey, b).value)
  {
    assert Outcomes(groups, qkey, a + b) == Outcomes(groups, qkey, a) + Outcomes(groups, qkey, b);
    CollectAppend(Outcomes(groups, qkey, a), Outcomes(groups, qkey, b));
  }

  /** One more answer key: its rank is appended, or its error ends the
      list, and an error stays the error of the whole list. */
  lemma RanksExtend(groups: seq<seq<Scored>>, qkey: string, artkeys: seq<string>, i: nat)
    requires i < |artkeys| && Ranks(groups, qkey, artkeys[..i]).Ok?
    ensures RankIn(groups, qkey, artkeys[i]).Ok? ==>
      Ranks(groups, qkey, artkeys[..i + 1]) == Ok(Ranks(groups, qkey, artkeys[..i]).value + [RankIn(groups, qkey, artkeys[i]).value])
    ensures RankIn(groups, qkey, artkeys[i]).Err? ==>
      Ranks(groups, qkey, artkeys) == Err(RankIn(groups, qkey, artkeys[i]).error)
  {
    var x := artkeys[i];
    var prefix, rest := artkeys[..i], artkeys[i + 1..];
    assert artkeys[..i + 1] == prefix + [x];
    assert artkeys == (prefix + [x]) + rest;
    RanksOne(groups, qkey, x);
    RanksAppend(groups, qkey, prefix, [x]);
    RanksAppend(groups, qkey, prefix + [x], rest);
  }

  lemma RanksOne(groups: seq<seq<Scored>>, qkey: string, x: string)
    ensures Ranks(groups, qkey, [x]) == match RankIn(groups, qkey, x)
      case Ok(v) => Ok([v])
      case Err(e) => Err(e)
  {
    var rs := Outcomes(groups, qkey, [x]);
    assert rs == [RankIn(groups, qkey, x)];
    assert rs[1..] == [];
    assert Collect(rs[1..]) == Ok([]);
    if RankIn(groups, qkey, x).Ok? {
      assert [RankIn(groups, qkey, x).value] + [] == [RankIn(groups, qkey, x).value];
    }
  }

  /** `keymap_ranks(order, correct_order, qkey, noorder)`: the ranks of the
      answer keys in their order, sorted when `noorder` is set. */
  method KeymapRanks(order: seq<Scored>, correctOrder: seq<string>, qkey: string, noorder: bool)
    returns (r: Result<seq<real>, RankError>)
    ensures r.Err? <==> Ranks(GroupBy(order), qkey, correctOrder).Err?
    ensures r.Err? ==> r == Ranks(GroupBy(order), qkey, correctOrder)
    ensures r.Ok? ==> r.value == if noorder then SortReals(Ranks(GroupBy(order), qkey, correctOrder).value)
                                 else Ranks(GroupBy(order), qkey, correctOrder).value
  {
    ghost var groups := GroupBy(order);
    var rankstack: seq<real> := [];
    var i := 0;
    while i < |correctOrder|
      invariant i <= |correctOrder|
      invariant Ranks(groups, qkey, correctOrder[..i]) == Ok(rankstack)
    {
      var rank := RankOf(order, qkey, correctOrder[i]);
      RanksExtend(groups, qkey, correctOrder, i);
      if rank.Err? {
        return Err(rank.error);
      }
      rankstack := rankstack + [rank.value];
      i := i + 1;
    }
    assert correctOrder[..i] == correctOrder;
    if noorder {
      rankstack := SortReals(rankstack);
    }
    r := Ok(rankstack);
  }

  lemma {:induction false} CollectOk(rs: seq<Result<real, RankError>>)
    ensures Collect(rs).Ok? <==> forall i :: 0 <= i < |rs| ==> rs[i].Ok?
    ensures Collect(rs).Ok? ==>
      && |Collect(rs).value| == |rs|
      && forall i :: 0 <= i < |rs| ==> Collect(rs).value[i] == rs[i].value
  {
    if rs != [] {
      CollectOk(rs[1..]);
      assert forall i :: 1 <= i < |rs| ==> rs[i] == rs[1..][i - 1];
    }
  }

  /** Every answer key is ranked exactly when the whole list is, and then
      the list holds each key's rank in place. */
  lemma RanksOk(groups: seq<seq<Scored>>, qkey: string, artkeys: seq<string>)
    ensures Ranks(groups, qkey, artkeys).Ok? <==> forall i :: 0 <= i < |artkeys| ==> RankIn(groups, qkey, artkeys[i]).Ok?
    ensures Ranks(groups, qkey, artkeys).Ok? ==>
      && |Ranks(groups, qkey, artkeys).value| == |artkeys|
      && forall i :: 0 <= i < |artkeys| ==> Ranks(groups, qkey, artkeys).value[i] == RankIn(groups, qkey, artkeys[i]).value
  {
    CollectOk(Outcomes(groups, qkey, artkeys));
  }

  /** `rs[i]` is the first failing outcome, with error `e`. */
  predicate FirstFailure(rs: seq<Result<real, RankError>>, i: int, e: RankError) {
    && 0 <= i < |rs|
    && rs[i] == Err(e)
    && forall k :: 0 <= k < i ==> rs[k].Ok?
  }

  lemma {:induction false} CollectErr(rs: seq<Result<real, RankError>>)
    requires Collect(rs).Err?
    ensures exists i :: FirstFailure(rs, i, Collect(rs).error)
  {
    var e := Collect(rs).error;
    if rs[0].Err? {
      assert FirstFailure(rs, 0, e);
    } else {
      CollectErr(rs[1..]);
      var i :| FirstFailure(rs[1..], i, e);
      assert forall k :: 1 <= k <= i + 1 ==> rs[k] == rs[1..][k - 1];
      assert FirstFailure(rs, i + 1, e);
    }
  }

  /** `artkeys[i]` is the first answer key without a rank, for `e`. */
  predicate FirstUnranked(groups: seq<seq<Scored>>, qkey: string, artkeys: seq<string>, i: int, e: RankError) {
    && 0 <= i < |artkeys|
    && RankIn(groups, qkey, artkeys[i]) == Err(e)
    && forall k :: 0 <= k < i ==> RankIn(groups, qkey, artkeys[k]).Ok?
  }

  /** An error is the error of the first answer key without a rank. */
  lemma RanksErr(groups: seq<seq<Scored>>, qkey: string, artkeys: seq<string>)
    requires Ranks(groups, qkey, artkeys).Err?
    ensures exists i :: FirstUnranked(groups, qkey, artkeys, i, Ranks(groups, qkey, artkeys).error)
  {
    var rs := Outcomes(groups, qkey, artkeys);
    CollectErr(rs);
    var i :| FirstFailure(rs, i, Collect(rs).error);
    assert FirstUnranked(groups, qkey, artkeys, i, Ranks(groups, qkey, artkeys).error);
  }

  /** An answer's rank lies within its tie group: after every key of the
      earlier groups and at most at the last place of its own group. */
  lemma RankWithinGroup(groups: seq<seq<Scored>>, qkey: string, artkey: string)
    requires RankIn(groups, qkey, artkey).Ok?
    ensures var j := FirstStop(groups, qkey, artkey);
      && j < |groups|
      && Before(groups, j, qkey) as real + 1.0 <= RankIn(groups, qkey, artkey).value
      && RankIn(groups, qkey, artkey).value <= (Before(groups, j, qkey) + |Equivs(groups[j], qkey)|) as real
  {
  }

  lemma {:induction false} BeforeGrows(groups: seq<seq<Scored>>, qkey: string, i: nat, j: nat)
    requires i <= j <= |groups|
    ensures Before(groups, i, qkey) <= Before(groups, j, qkey)
  {
    if i < j {
      BeforeGrows(groups, qkey, i, j - 1);
    }
  }

  /** Two answers in the same tie group share a rank; an answer found in an
      earlier group ranks strictly better. */
  lemma RanksFollowGroups(groups: seq<seq<Scored>>, qkey: string, a1: string, a2: string)
    requires RankIn(groups, qkey, a1).Ok? && RankIn(groups, qkey, a2).Ok?
    ensures FirstStop(groups, qkey, a1) == FirstStop(groups, qkey, a2) ==>
      RankIn(groups, qkey, a1).value == RankIn(groups, qkey, a2).value
    ensures FirstStop(groups, qkey, a1) < FirstStop(groups, qkey, a2) ==>
      RankIn(groups, qkey, a1).value < RankIn(groups, qkey, a2).value
  {
    var j1, j2 := FirstStop(groups, qkey, a1), FirstStop(groups, qkey, a2);
    if j1 < j2 {
      RankWithinGroup(groups, qkey, a1);
      RankWithinGroup(groups, qkey, a2);
      BeforeGrows(groups, qkey, j1 + 1, j2);
    }
  }

  lemma {:induction false} MentionedFlatten(groups: seq<seq<Scored>>, x: string)
    ensures Mentioned(Flatten(groups), x) <==> exists k :: 0 <= k < |groups| && Mentioned(groups[k], x)
  {
    if groups != [] {
      MentionedFlatten(groups[1..], x);
      var rest := Flatten(groups[1..]);
      var all := groups[0] + rest;
      assert Flatten(groups) == all;
      if Mentioned(all, x) {
        var i :| 0 <= i < |all| && (x == all[i].pair.0 || x == all[i].pair.1);
        if i < |groups[0]| {
          assert all[i] == groups[0][i];
          assert Mentioned(groups[0], x);
        } else {
          assert rest[i - |groups[0]|] == all[i];
          assert Mentioned(rest, x);
          var k :| 0 <= k < |groups[1..]| && Mentioned(groups[1..][k], x);
          assert groups[k + 1] == groups[1..][k];
        }
      }
      if exists k :: 0 <= k < |groups| && Mentioned(groups[k], x) {
        var k :| 0 <= k < |groups| && Mentioned(groups[k], x);
        if k == 0 {
          var i :| 0 <= i < |groups[0]| && (x == groups[0][i].pair.0 || x == groups[0][i].pair.1);
          assert all[i] == groups[0][i];
        } else {
          assert groups[1..][k - 1] == groups[k];
          var i :| 0 <= i < |rest| && (x == rest[i].pair.0 || x == rest[i].pair.1);
          assert all[|groups[0]| + i] == rest[i];
        }
      }
    }
  }

  /** `keymap_ranks` raises `ValueError` for an answer exactly when every
      group mentions the query and no pair of the order mentions the answer
      (other than as the query itself). */
  lemma NotRankedExactly(order: seq<Scored>, qkey: string, artkey: string)
    ensures RankIn(GroupBy(order), qkey, artkey) == Err(NotRanked) <==>
      && (forall k :: 0 <= k < |GroupBy(order)| ==> qkey in Keys(GroupBy(order)[k]))
      && (artkey == qkey || !Mentioned(order, artkey))
  {
    var groups := GroupBy(order);
    MentionedFlatten(groups, artkey);
    forall k | 0 <= k < |groups|
      ensures artkey in Keys(groups[k]) <==> Mentioned(groups[k], artkey)
    {
      KeysMention(groups[k], artkey);
    }
  }

  // ---------------------------------------------------------------------
  // The hierarchy graph

  /** The edge labels `_hierarchy_reduce` keeps, and `_bridge` unless
      `expandother` is set. */
  const HierarchyProps: seq<string> := ["hyper", "hyperx"]

  /** `nx_graph.copy()` with every edge whose label is not `hyper` or
      `hyperx` removed. */
  function HierarchyGraph(g: DiGraph): (h: DiGraph)
    ensures h.nodes == g.nodes
  {
    KeepLabels(g, HierarchyProps)
  }

  /** `nx.has_path(h, u, v)` */
  ghost predicate Reachable(h: DiGraph, u: string, v: string) {
    exists p :: IsPath(h, p, u, v)
  }

  /** `reach` answers `nx.has_path` on `h`: for two nodes of `h` it holds
      the pair exactly when the second is reachable from the first. */
  ghost predicate HasPathOracle(h: DiGraph, reach: set<(string, string)>) {
    forall u, v :: u in h.nodes && v in h.nodes ==> ((u, v) in reach <==> Reachable(h, u, v))
  }

  // ---------------------------------------------------------------------
  // _hierarchy_reduce

  /** `list.remove(x)`: drops the first occurrence of `x`. */
  function RemoveFirst(s: seq<string>, x: string): (r: seq<string>)
    requires x in s
    ensures |r| == |s| - 1
    ensures multiset(r) == multiset(s) - multiset{x}
  {
    if s[0] == x then
      assert s == [s[0]] + s[1..];
      s[1..]
    else
      assert s == [s[0]] + s[1..];
      [s[0]] + RemoveFirst(s[1..], x)
  }

  /** The pair `(hyper, hypo)` of `itertools.permutations(termset, 2)`
      passes every test of the loop: `hyper` is not excepted, differs from
      `hypo`, both are nodes of the hierarchy graph and `hypo` reaches
      `hyper` there (`_upper(hyper, hypo)`). */
  predicate Qualifies(g: DiGraph, reach: set<(string, string)>, excepts: seq<string>, hyper: string, hypo: string) {
    && hyper !in excepts
    && hyper != hypo
    && hyper in g.nodes && hypo in g.nodes
    && (hypo, hyper) in reach
  }

  /** Some pair of distinct positions of `termset`, both before position
      `(i, j)` in the order `itertools.permutations` yields them, qualifies. */
  ghost predicate QualifiedBefore(g: DiGraph, reach: set<(string, string)>, excepts: seq<string>,
                                  termset: seq<string>, i: int, j: int) {
    exists a, b :: 0 <= a < |termset| && 0 <= b < |termset| && a != b && (a < i || (a == i && b < j))
      && Qualifies(g, reach, excepts, termset[a], termset[b])
  }

  /** A term `_hierarchy_reduce` may drop: another term of the set reaches it. */
  ghost predicate Reducible(g: DiGraph, reach: set<(string, string)>, excepts: seq<string>, termset: seq<string>, x: string) {
    exists y :: y in termset && Qualifies(g, reach, excepts, x, y)
  }

  /** What the loop keeps: the length, terms from the input only, and every
      term with fewer copies than in the input is reducible. */
  ghost predicate ReduceInvariant(g: DiGraph, reach: set<(string, string)>, excepts: seq<string>,
                                  termset: seq<string>, reduced: seq<string>) {
    && |reduced| == |termset|
    && (forall x :: x in reduced ==> x in termset)
    && forall x :: multiset(reduced)[x] < multiset(termset)[x] ==> Reducible(g, reach, excepts, termset, x)
  }

  /** One pair of the permutation loop: when it qualifies and `hyper` is
      still present, `hyper` is removed and `hypo` appended. */
  method ReduceStep(g: DiGraph, reach: set<(string, string)>, excepts: seq<string>, termset: seq<string>,
                    hyper: string, hypo: string, terms: seq<string>, reduced: bool)
    returns (terms': seq<string>, reduced': bool)
    requires hypo in termset
    requires ReduceInvariant(g, reach, excepts, termset, terms)
    ensures ReduceInvariant(g, reach, excepts, termset, terms')
    ensures Qualifies(g, reach, excepts, hyper, hypo) && hyper in terms ==>
      terms' == RemoveFirst(terms, hyper) + [hypo] && reduced'
    ensures !(Qualifies(g, reach, excepts, hyper, hypo) && hyper in terms) ==> terms' == terms && reduced' == reduced
  {
    terms', reduced' := terms, reduced;
    if hyper in excepts {
      return;
    }
    if hyper == hypo {
      return;
    }
    if hyper !in g.nodes || hypo !in g.nodes {
      return;
    }
    if (hypo, hyper) in reach && hyper in terms {
      terms' := RemoveFirst(terms, hyper) + [hypo];
      reduced' := true;
      assert multiset(terms') == multiset(terms) - multiset{hyper} + multiset{hypo};
      forall x | x in terms'
        ensures x in termset
      {
        assert x in multiset(terms');
      }
    }
  }

  /** `_hierarchy_reduce(termset, excepts)`: replaces a term by another term
      of the set that reaches it in the hierarchy graph, for every
      qualifying ordered pair of positions. */
  method HierarchyReduce(g: DiGraph, reach: set<(string, string)>, termset: seq<string>, excepts: seq<string>)
    returns (reducedTerms: seq<string>, reduced: bool)
    ensures |reducedTerms| == |termset|
    ensures forall x :: x in reducedTerms ==> x in termset
    ensures forall x :: x in excepts ==> multiset(reducedTerms)[x] >= multiset(termset)[x]
    ensures forall x :: multiset(reducedTerms)[x] < multiset(termset)[x] ==> Reducible(g, reach, excepts, termset, x)
    ensures reduced <==> QualifiedBefore(g, reach, excepts, termset, |termset|, 0)
    ensures !reduced ==> reducedTerms == termset
  {
    reducedTerms, reduced := termset, false;
    var i := 0;
    while i < |termset|
      invariant i <= |termset|
      invariant ReduceInvariant(g, reach, excepts, termset, reducedTerms)
      invariant reduced <==> QualifiedBefore(g, reach, excepts, termset, i, 0)
      invariant !reduced ==> reducedTerms == termset
    {
      var j := 0;
      while j < |termset|
        invariant j <= |termset|
        invariant ReduceInvariant(g, reach, excepts, termset, reducedTerms)
        invariant reduced <==> QualifiedBefore(g, reach, excepts, termset, i, j)
        invariant !reduced ==> reducedTerms == termset
      {
        ghost var was := reduced;
        if i != j {
          reducedTerms, reduced := ReduceStep(g, reach, excepts, termset, termset[i], termset[j], reducedTerms, reduced);
        }
        QualifiedNext(g, reach, excepts, termset, i, j, was, reduced);
        j := j + 1;
      }
      QualifiedRow(g, reach, excepts, termset, i);
      i := i + 1;
    }
    ExceptsKept(g, reach, excepts, termset, reducedTerms);
  }

  /** Passing pair `(i, j)` adds it to the pairs seen so far. */
  lemma QualifiedNext(g: DiGraph, reach: set<(string, string)>, excepts: seq<string>, termset: seq<string>,
                      i: nat, j: nat, was: bool, now: bool)
    requires i < |termset| && j < |termset|
    requires was <==> QualifiedBefore(g, reach, excepts, termset, i, j)
    requires i != j && Qualifies(g, reach, excepts, termset[i], termset[j]) && !was ==> now
    requires !(i != j && Qualifies(g, reach, excepts, termset[i], termset[j])) ==> now == was
    requires was ==> now
    ensures now <==> QualifiedBefore(g, reach, excepts, termset, i, j + 1)
  {
    if i != j && Qualifies(g, reach, excepts, termset[i], termset[j]) {
      assert QualifiedBefore(g, reach, excepts, termset, i, j + 1);
    }
    if QualifiedBefore(g, reach, excepts, termset, i, j + 1) && !was {
      var a, b :| 0 <= a < |termset| && 0 <= b < |termset| && a != b && (a < i || (a == i && b < j + 1))
        && Qualifies(g, reach, excepts, termset[a], termset[b]);
      assert a == i && b == j;
    }
  }

  /** The pairs seen after row `i` are those before row `i + 1`. */
  lemma QualifiedRow(g: DiGraph, reach: set<(string, string)>, excepts: seq<string>, termset: seq<string>, i: nat)
    ensures QualifiedBefore(g, reach, excepts, termset, i, |termset|) <==> QualifiedBefore(g, reach, excepts, termset, i + 1, 0)
  {
  }

  /** An excepted term is never reducible, so it keeps all its copies. */
  lemma ExceptsKept(g: DiGraph, reach: set<(string, string)>, excepts: seq<string>, termset: seq<string>, reduced: seq<string>)
    requires ReduceInvariant(g, reach, excepts, termset, reduced)
    ensures forall x :: x in excepts ==> multiset(reduced)[x] >= multiset(termset)[x]
  {
  }

  /** With `reach` answering `has_path` on the hierarchy graph, a term is
      dropped exactly when it is not excepted and another term of the set
      reaches it along `hyper` and `hyperx` edges alone. */
  lemma ReducibleByHierarchy(g: DiGraph, reach: set<(string, string)>, excepts: seq<string>, termset: seq<string>, x: string)
    requires HasPathOracle(HierarchyGraph(g), reach)
    ensures Reducible(g, reach, excepts, termset, x) <==>
      && x !in excepts && x in g.nodes
      && exists y :: y in termset && y != x && y in g.nodes && Reachable(HierarchyGraph(g), y, x)
  {
    if Reducible(g, reach, excepts, termset, x) {
      var y :| y in termset && Qualifies(g, reach, excepts, x, y);
      assert Reachable(HierarchyGraph(g), y, x);
    }
    if x !in excepts && x in g.nodes && exists y :: y in termset && y != x && y in g.nodes && Reachable(HierarchyGraph(g), y, x) {
      var y :| y in termset && y != x && y in g.nodes && Reachable(HierarchyGraph(g), y, x);
      assert Qualifies(g, reach, excepts, x, y);
    }
  }

  // ---------------------------------------------------------------------
  // _bridge

  /** Python's ordering of unicode strings: by code point, a proper prefix
      first. */
  predicate StrLess(a: string, b: string) {
    if a == [] then b != []
    else if b == [] then false
    else if a[0] != b[0] then a[0] < b[0]
    else StrLess(a[1..], b[1..])
  }

  lemma {:induction false} StrLessTrans(a: string, b: string, c: string)
    requires StrLess(a, b) && StrLess(b, c)
    ensures StrLess(a, c)
  {
    if a != [] && a[0] == b[0] && b[0] == c[0] {
      StrLessTrans(a[1..], b[1..], c[1..]);
    }
  }

  lemma {:induction false} StrLessTotal(a: string, b: string)
    ensures a == b || StrLess(a, b) || StrLess(b, a)
    ensures !(StrLess(a, b) && StrLess(b, a))
  {
    if a != [] && b != [] && a[0] == b[0] {
      StrLessTotal(a[1..], b[1..]);
      if a[1..] == b[1..] {
        assert a == [a[0]] + a[1..] && b == [b[0]] + b[1..];
      }
    }
  }

  predicate StrictlySorted(s: seq<string>) {
    forall i :: 0 < i < |s| ==> StrLess(s[i - 1], s[i])
  }

  function InsertStr(x: string, s: seq<string>): (r: seq<string>)
    requires StrictlySorted(s)
    ensures StrictlySorted(r)
    ensures forall y :: y in r <==> y == x || y in s
    ensures |r| > 0 && (r[0] == x || (s != [] && r[0] == s[0]))
  {
    if s == [] then [x]
    else if x == s[0] then s
    else if StrLess(x, s[0]) then [x] + s
    else
      StrLessTotal(x, s[0]);
      var rest := InsertStr(x, s[1..]);
      assert s == [s[0]] + s[1..];
      [s[0]] + rest
  }

  /** `sorted(set(xs))`: the distinct elements of `xs` in ascending order. */
  function SortedSet(xs: seq<string>): (r: seq<string>)
    ensures StrictlySorted(r)
    ensures forall y :: y in r <==> y in xs
  {
    if xs == [] then []
    else
      assert xs == [xs[0]] + xs[1..];
      InsertStr(xs[0], SortedSet(xs[1..]))
  }

  /** An element less than the head of a strictly sorted list is not in it. */
  lemma {:induction false} BelowHeadAbsent(x: string, s: seq<string>)
    requires StrictlySorted(s) && s != [] && StrLess(x, s[0])
    ensures x !in s
  {
    StrLessTotal(x, s[0]);
    if |s| > 1 {
      StrLessTrans(x, s[0], s[1]);
      BelowHeadAbsent(x, s[1..]);
    }
  }

  /** A strictly sorted list is fixed by its elements, so `SortedSet` is
      `sorted(set(xs))` whichever way it is computed. */
  lemma {:induction false} SortedUnique(s: seq<string>, t: seq<string>)
    requires StrictlySorted(s) && StrictlySorted(t)
    requires forall y :: y in s <==> y in t
    ensures s == t
  {
    if s != [] {
      assert s[0] in t;
    }
    if t != [] {
      assert t[0] in s;
    }
    if s != [] && t != [] {
      StrLessTotal(s[0], t[0]);
      if StrLess(s[0], t[0]) {
        BelowHeadAbsent(s[0], t);
      } else if StrLess(t[0], s[0]) {
        BelowHeadAbsent(t[0], s);
      } else {
        assert s == [s[0]] + s[1..] && t == [t[0]] + t[1..];
        forall y ensures y in s[1..] <==> y in t[1..] {
          if y in s[1..] {
            AfterHead(s, y);
            assert y in t;
          }
          if y in t[1..] {
            AfterHead(t, y);
            assert y in s;
          }
        }
        SortedUnique(s[1..], t[1..]);
        assert s == [s[0]] + s[1..] && t == [t[0]] + t[1..];
      }
    }
  }

  /** The tail of a strictly sorted list does not hold its head. */
  lemma AfterHead(s: seq<string>, y: string)
    requires StrictlySorted(s) && s != [] && y in s[1..]
    ensures y != s[0]
  {
    if |s| > 1 {
      StrLessTotal(s[0], s[1]);
      assert StrictlySorted(s[1..]);
      if y == s[0] {
        BelowHeadAbsent(s[0], s[1..]);
      }
    }
  }

  /** Both terms are nodes of `h` and `reach` says `to` is reachable from
      `from` (the tests of the inner loop of `_bridge`). */
  predicate Bridges(h: DiGraph, reach: set<(string, string)>, from: string, to: string) {
    from in h.nodes && to in h.nodes && (from, to) in reach
  }

  /** Selects the targets `from` reaches. */
  function BridgedFrom(h: DiGraph, reach: set<(string, string)>, from: string): string -> bool {
    (t: string) => Bridges(h, reach, from, t)
  }

  /** The terms `_bridge` appends: for each from-term in turn, the targets
      it reaches, in target order. */
  function Appends(h: DiGraph, reach: set<(string, string)>, froms: seq<string>, targets: seq<string>): seq<string> {
    if froms == [] then []
    else Filter(targets, BridgedFrom(h, reach, froms[0])) + Appends(h, reach, froms[1..], targets)
  }

  /** A term is appended exactly when it is a target that some from-term
      reaches. */
  lemma {:induction false} AppendsMembers(h: DiGraph, reach: set<(string, string)>, froms: seq<string>, targets: seq<string>, t: string)
    ensures t in Appends(h, reach, froms, targets) <==>
      t in targets && exists f :: f in froms && Bridges(h, reach, f, t)
  {
    if froms != [] {
      AppendsMembers(h, reach, froms[1..], targets, t);
      assert froms == [froms[0]] + froms[1..];
    }
  }

  lemma {:induction false} AppendsSnoc(h: DiGraph, reach: set<(string, string)>, froms: seq<string>, f: string, targets: seq<string>)
    ensures Appends(h, reach, froms + [f], targets)
      == Appends(h, reach, froms, targets) + Filter(targets, BridgedFrom(h, reach, f))
  {
    if froms == [] {
      assert [f][1..] == [];
    } else {
      assert (froms + [f])[1..] == froms[1..] + [f];
      AppendsSnoc(h, reach, froms[1..], f, targets);
    }
  }

  /** The elements of `xs` that are not in `ys`, as `set(xs).difference(ys)`. */
  function Minus(xs: seq<string>, ys: seq<string>): (r: seq<string>)
    ensures forall y :: y in r <==> y in xs && y !in ys
  {
    Filter(xs, (x: string) => x !in ys)
  }

  /** The graph `_bridge` searches: `nx_graph`, with every edge that is not
      `hyper` or `hyperx` removed unless `expandother` is set. */
  function BridgeGraph(g: DiGraph, expandother: bool): (h: DiGraph)
    ensures h.nodes == g.nodes
  {
    if expandother then g else HierarchyGraph(g)
  }

  /** One from-term of `_bridge`: appends each target it reaches. */
  method BridgeFrom(h: DiGraph, reach: set<(string, string)>, from: string, targets: seq<string>, appends: seq<string>)
    returns (appends': seq<string>)
    ensures appends' == appends + Filter(targets, BridgedFrom(h, reach, from))
  {
    appends' := appends;
    var j := 0;
    while j < |targets|
      invariant j <= |targets|
      invariant appends' == appends + Filter(targets[..j], BridgedFrom(h, reach, from))
    {
      var to := targets[j];
      BridgeStep(h, reach, from, targets, j);
      if from !in h.nodes || to !in h.nodes {
        j := j + 1;
        continue;
      }
      if (from, to) in reach {
        appends' := appends' + [to];
      }
      j := j + 1;
    }
    assert targets[..j] == targets;
  }

  lemma BridgeStep(h: DiGraph, reach: set<(string, string)>, from: string, targets: seq<string>, j: nat)
    requires j < |targets|
    ensures Filter(targets[..j + 1], BridgedFrom(h, reach, from))
      == Filter(targets[..j], BridgedFrom(h, reach, from)) + if Bridges(h, reach, from, targets[j]) then [targets[j]] else []
  {
    FilterConcat(targets[..j], [targets[j]], BridgedFrom(h, reach, from));
    assert targets[..j + 1] == targets[..j] + [targets[j]];
  }

  /** `_bridge(fromterms, toterms)`: the from-terms followed by every other
      to-term that a from-term reaches, once per from-term reaching it;
      from-terms and targets are visited in sorted order. The memo cache
      returns what the loop would compute and is left out. */
  method Bridge(h: DiGraph, reach: set<(string, string)>, fromterms: seq<string>, toterms: seq<string>)
    returns (r: seq<string>)
    ensures r == fromterms + Appends(h, reach, SortedSet(fromterms), SortedSet(Minus(toterms, fromterms)))
  {
    var ordered := SortedSet(fromterms);
    var targets := SortedSet(Minus(toterms, fromterms));
    var appends := [];
    var i := 0;
    while i < |ordered|
      invariant i <= |ordered|
      invariant appends == Appends(h, reach, ordered[..i], targets)
    {
      AppendsSnoc(h, reach, ordered[..i], ordered[i], targets);
      assert ordered[..i + 1] == ordered[..i] + [ordered[i]];
      appends := BridgeFrom(h, reach, ordered[i], targets, appends);
      i := i + 1;
    }
    assert ordered[..i] == ordered;
    r := fromterms + appends;
  }

  /** What `_bridge` promises: the from-terms come first, unchanged; every
      appended term is a to-term outside the from-terms that some from-term
      reaches in the graph; and every such term is appended. */
  lemma BridgeSoundComplete(h: DiGraph, reach: set<(string, string)>, fromterms: seq<string>, toterms: seq<string>, t: string)
    requires HasPathOracle(h, reach)
    ensures var r := fromterms + Appends(h, reach, SortedSet(fromterms), SortedSet(Minus(toterms, fromterms)));
      && r[..|fromterms|] == fromterms
      && (t in r[|fromterms|..] <==>
            && t in toterms && t !in fromterms && t in h.nodes
            && exists f :: f in fromterms && f in h.nodes && Reachable(h, f, t))
  {
    var appends := Appends(h, reach, SortedSet(fromterms), SortedSet(Minus(toterms, fromterms)));
    AppendsMembers(h, reach, SortedSet(fromterms), SortedSet(Minus(toterms, fromterms)), t);
    assert (fromterms + appends)[|fromterms|..] == appends;
    if exists f :: f in fromterms && f in h.nodes && Reachable(h, f, t) {
      var f :| f in fromterms && f in h.nodes && Reachable(h, f, t);
      if t in h.nodes {
        assert Bridges(h, reach, f, t);
      }
    }
  }

  // ---------------------------------------------------------------------
  // _filter in fn_joint_cutoff_art

  /** A term weight map, `{term: weight}`. */
  type Weights = map<string, real>

  /** Multiplication mode: every weight of the filtered map scaled by the
      base weight of its term, where the base has one. */
  function Scaled(filtered: Weights, base: Weights): (r: Weights)
    ensures r.Keys == filtered.Keys
  {
    map k | k in filtered :: if k in base then filtered[k] * base[k] else filtered[k]
  }

  /** Zeroing mode: every weight whose term has base weight `0.0` set to
      `0.0`. */
  function ZeroedWhere(filtered: Weights, base: Weights): (r: Weights)
    ensures r.Keys == filtered.Keys
  {
    map k | k in filtered :: if k in base && base[k] == 0.0 then 0.0 else filtered[k]
  }

  /** The multiplication loop of `_filter`: `map_filtered[term] *=
      weight_base` for every term of the base. */
  method ScaleByBase(filtered: Weights, base: Weights) returns (r: Result<Weights, string>)
    ensures r.Err? <==> !(base.Keys <= filtered.Keys)
    ensures r.Err? ==> r.error in base && r.error !in filtered
    ensures r.Ok? ==> r.value == Scaled(filtered, base)
  {
    var m := filtered;
    var todo := base.Keys;
    while todo != {}
      invariant todo <= base.Keys
      invariant forall k :: k in base && k !in todo ==> k in filtered
      invariant m.Keys == filtered.Keys
      invariant forall k :: k in m ==> m[k] == if k in base && k !in todo then filtered[k] * base[k] else filtered[k]
      decreases |todo|
    {
      var term :| term in todo;
      if term !in m {
        return Err(term);
      }
      m := m[term := m[term] * base[term]];
      todo := todo - {term};
    }
    forall k | k in m
      ensures m[k] == Scaled(filtered, base)[k]
    {
      assert k !in todo;
    }
    assert m == Scaled(filtered, base);
    r := Ok(m);
  }

  /** The zeroing loop of `_filter`: `map_filtered[term] = 0.0` wherever
      `map_base[term] == 0.0`, for every term of the filtered map. */
  method ZeroByBase(filtered: Weights, base: Weights) returns (r: Result<Weights, string>)
    ensures r.Err? <==> !(filtered.Keys <= base.Keys)
    ensures r.Err? ==> r.error in filtered && r.error !in base
    ensures r.Ok? ==> r.value == ZeroedWhere(filtered, base)
  {
    var m := filtered;
    var todo := filtered.Keys;
    while todo != {}
      invariant todo <= filtered.Keys
      invariant forall k :: k in filtered && k !in todo ==> k in base
      invariant m.Keys == filtered.Keys
      invariant forall k :: k in m ==> m[k] == if k !in todo && base[k] == 0.0 then 0.0 else filtered[k]
      decreases |todo|
    {
      var term :| term in todo;
      if term !in base {
        return Err(term);
      }
      if base[term] == 0.0 {
        m := m[term := 0.0];
      }
      todo := todo - {term};
    }
    assert m == ZeroedWhere(filtered, base);
    r := Ok(m);
  }

  /** `_filter(map_filtered, terms_filtered, map_base, terms_base)`. Both
      maps are values, so the inputs stay as they were, as `.copy()` ensures
      in the source. A term the loop looks up in a map that lacks it raises
      `KeyError`, returned here as `Err(term)`. */
  method CutoffFilter(byMultiplication: bool, mapFiltered: Weights, termsFiltered: seq<string>,
                      mapBase: Weights, termsBase: seq<string>)
    returns (r: Result<(Weights, seq<string>), string>)
    ensures byMultiplication ==> (r.Err? <==> !(mapBase.Keys <= mapFiltered.Keys))
    ensures byMultiplication && r.Err? ==> r.error in mapBase && r.error !in mapFiltered
    ensures byMultiplication && r.Ok? ==> r.value == (Scaled(mapFiltered, mapBase), termsFiltered)
    ensures !byMultiplication ==> (r.Err? <==> !(mapFiltered.Keys <= mapBase.Keys))
    ensures !byMultiplication && r.Err? ==> r.error in mapFiltered && r.error !in mapBase
    ensures !byMultiplication && r.Ok? ==>
      r.value == (ZeroedWhere(mapFiltered, mapBase), Filter(termsFiltered, (t: string) => t in termsBase))
  {
    if byMultiplication {
      var m := ScaleByBase(mapFiltered, mapBase);
      if m.Err? {
        return Err(m.error);
      }
      r := Ok((m.value, termsFiltered));
    } else {
      var m := ZeroByBase(mapFiltered, mapBase);
      if m.Err? {
        return Err(m.error);
      }
      var terms := Filter(termsFiltered, (t: string) => t in termsBase);
      r := Ok((m.value, terms));
    }
  }

  /** On indicator base maps, as `dict.fromkeys(terms, 1.0)` over a
      `0.0`-filled map builds them, both modes give the same weights. */
  lemma ModesAgreeOnIndicators(filtered: Weights, base: Weights)
    requires filtered.Keys <= base.Keys
    requires forall k :: k in base ==> base[k] == 0.0 || base[k] == 1.0
    ensures Scaled(filtered, base) == ZeroedWhere(filtered, base)
  {
    forall k | k in filtered
      ensures Scaled(filtered, base)[k] == ZeroedWhere(filtered, base)[k]
    {
      if base[k] == 1.0 {
        assert filtered[k] * 1.0 == filtered[k];
      }
    }
  }

  /** Zeroing twice against the same base changes nothing more. */
  lemma ZeroedWhereIdempotent(filtered: Weights, base: Weights)
    ensures ZeroedWhere(ZeroedWhere(filtered, base), base) == ZeroedWhere(filtered, base)
  {
  }

  // ---------------------------------------------------------------------
  // The cutoff block of fn_joint_expandonly

  function Elems(s: seq<string>): set<string> {
    set x | x in s
  }

  /** `seed_a`: the side's own terms together with the terms both
      expansions share. */
  function Seed(termset: seq<string>, expand: seq<string>, otherExpand: seq<string>): (seed: set<string>)
    ensures forall t :: t in seed <==> t in termset || (t in expand && t in otherExpand)
  {
    Elems(termset) + (Elems(expand) * Elems(otherExpand))
  }

  /** `[t for t in expand_terms if t in seed]` */
  function CutTerms(termset: seq<string>, expand: seq<string>, otherExpand: seq<string>): (r: seq<string>)
    ensures forall t :: t in r <==> t in expand && t in Seed(termset, expand, otherExpand)
  {
    Filter(expand, (t: string) => t in Seed(termset, expand, otherExpand))
  }

  /** `m` with every weight outside `seed` set to `0.0`. */
  function Confined(m: Weights, seed: set<string>): (r: Weights)
    ensures r.Keys == m.Keys
    ensures forall k :: k in r ==> r[k] == (if k in seed then m[k] else 0.0)
  {
    map k | k in m :: if k in seed then m[k] else 0.0
  }

  /** `for term in map.keys(): if term not in seed: map[term] = 0.0` */
  method ZeroOutside(m: Weights, seed: set<string>) returns (r: Weights)
    ensures r == Confined(m, seed)
  {
    r := m;
    var todo := m.Keys;
    while todo != {}
      invariant todo <= m.Keys
      invariant r.Keys == m.Keys
      invariant forall k :: k in r ==> r[k] == if k !in todo && k !in seed then 0.0 else m[k]
      decreases |todo|
    {
      var term :| term in todo;
      if term !in seed {
        r := r[term := 0.0];
      }
      todo := todo - {term};
    }
    assert r == Confined(m, seed);
  }

  /** The cutoff of `fn_joint_expandonly` when both sides were expanded and
      exactly one is a query: each side keeps the expanded terms that are
      its own or shared by both expansions, and its weights elsewhere drop
      to `0.0`. */
  method Cutoff(termsetA: seq<string>, expandA: seq<string>, mapA: Weights,
                termsetB: seq<string>, expandB: seq<string>, mapB: Weights)
    returns (expandA': seq<string>, mapA': Weights, expandB': seq<string>, mapB': Weights)
    ensures expandA' == CutTerms(termsetA, expandA, expandB) && expandB' == CutTerms(termsetB, expandB, expandA)
    ensures mapA' == Confined(mapA, Seed(termsetA, expandA, expandB))
    ensures mapB' == Confined(mapB, Seed(termsetB, expandB, expandA))
  {
    var both := Elems(expandA) * Elems(expandB);
    var seedA := Elems(termsetA) + both;
    var seedB := Elems(termsetB) + both;
    assert seedB == Seed(termsetB, expandB, expandA);
    expandA' := Filter(expandA, (t: string) => t in seedA);
    expandB' := Filter(expandB, (t: string) => t in seedB);
    mapA' := ZeroOutside(mapA, seedA);
    mapB' := ZeroOutside(mapB, seedB);
  }

  /** Every term the cutoff keeps lies in its side's seed, every weight it
      keeps non-zero too, and the terms both expansions share survive on
      both sides. */
  lemma CutoffConfines(termsetA: seq<string>, expandA: seq<string>, mapA: Weights,
                       termsetB: seq<string>, expandB: seq<string>, t: string)
    ensures t in CutTerms(termsetA, expandA, expandB) ==> t in termsetA || t in expandB
    ensures t in mapA && Confined(mapA, Seed(termsetA, expandA, expandB))[t] != 0.0 ==>
      t in termsetA || (t in expandA && t in expandB)
    ensures t in expandA && t in expandB ==>
      t in CutTerms(termsetA, expandA, expandB) && t in CutTerms(termsetB, expandB, expandA)
  {
  }

  /** Cutting again what the cutoff left changes nothing: the shared terms
      of the cut expansions are those of the original ones. */
  lemma CutoffIdempotent(termsetA: seq<string>, expandA: seq<string>, termsetB: seq<string>, expandB: seq<string>)
    ensures var a', b' := CutTerms(termsetA, expandA, expandB), CutTerms(termsetB, expandB, expandA);
      && Seed(termsetA, a', b') == Seed(termsetA, expandA, expandB)
      && CutTerms(termsetA, a', b') == a'
  {
    var a', b' := CutTerms(termsetA, expandA, expandB), CutTerms(termsetB, expandB, expandA);
    var seed := Seed(termsetA, expandA, expandB);
    assert Seed(termsetA, a', b') == seed;
    FilterAll(a', (t: string) => t in seed);
  }
}
