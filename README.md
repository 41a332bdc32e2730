# Lexical knowledge base utilities and term analysis, modelled in Dafny

This project models the checkable core of a Python 2 toolkit. The toolkit
builds a lexical knowledge base for Japanese civil law and analyses
question/article similarity over it. The model covers these parts:

- **Term expansion** (`termexpand.py`). `populate` grows a list of seed
  terms by running seven graph rules until a whole pass adds nothing. The
  model is the class `TermExpand.Expansion`: its `expand` list and
  `scoremap` are the fields the rules extend. Each rule walks the very list
  it appends to, and compares candidates against a per-step snapshot.
- **Greedy term segmentation** (`casemaker.py`). `matchterms` builds
  longest-first buckets and reorders them by preference lists. It then
  scans the text, consuming the first candidate that is a prefix of the
  rest. The module also has `termfind_func`, `uniq` and `mapmerge`.
- **The discrete parts of the PageRank module** (`pagerank.py`): the
  personalization map, the graph-kind check, the empty-graph shortcut, the
  personalization key check, dangling nodes and the static/conditional
  edge split.
- **Evaluation helpers** (`user_calc.py`):
  - the tie-aware ranks of `keymap_ranks`;
  - hierarchy reduction (`_hierarchy_reduce`);
  - hierarchy bridging (`_bridge`);
  - zero-cut filtering (`_filter`, and the cutoff block of
    `fn_joint_expandonly`).
- **`RelationChecker`** (`relationprovider`): a link store under one
  relation, with three optional rules.
  - `dry` refuses a repeated link.
  - `nointerlinks` refuses a link whose reverse is stored.
  - `acyclic` refuses a link that closes a cycle, found by a depth-first
    search.
- **`NameProvider`** (`nodeprovider`): name normalisation, validation and
  conflict-free registration.
- **The declarative loaders** (`declarative`): the traversal of parsed
  YAML, the term loader, and relation configurations.
- **The romanizer's post-processing and pipeline plan** (`kakasicall.py`).

Graphs are networkx `DiGraph`s. They are modelled as `Graphs.DiGraph`, a
node sequence plus a sequence of labelled, weighted edges.
`networkx.shortest_path` and `networkx.has_path` are parameters:

- `TermExpand.Paths` is a map of the paths the hyper-only copy yields;
- `UserCalc.HasPathOracle` is the set of pairs joined by a path.

Both oracles are stated as what networkx promises: a pair of nodes is
present exactly when a path joins them, and a returned path is a walk
along hyper edges (`TermExpand.PathsIn`, `UserCalc.HasPathOracle`).

Python exceptions that a caller can observe become `Err` values of
`Common.Result`. Python's `str` builtins (`split`, `join`, `strip`,
`lower`) are written out in `PyStr`.

## Model

| member | source | states |
|---|---|---|
| TermExpand.Score | jp_civil_law/build/easy_analysis/termexpand.py:22-30 | the `scorebase` value of each of the seven rules |
| TermExpand.Expansion.constructor | jp_civil_law/build/easy_analysis/termexpand.py:34-35 | `expand` is the seed list; every seed is scored 0.5 |
| TermExpand.Expansion.Yield | jp_civil_law/build/easy_analysis/termexpand.py:41-43 | one consumed yield appends the term and records its rule's score; the list stays an extension by justified nodes that were fresh when yielded |
| TermExpand.HyperOnly | jp_civil_law/build/easy_analysis/termexpand.py:121-124 | the copy keeps every node and exactly the edges labelled `hyper`/`hyperx`; the original graph is untouched |
| TermExpand.Expansion.TwoHopRule | jp_civil_law/build/easy_analysis/termexpand.py:54-67 | `hyperframes`/`attr_hypers`: every appended term is an unlisted node, reached from a listed term by a first-hop edge, with a second-hop edge into the list, scored by the rule; a run that appends nothing leaves the list closed under the rule |
| TermExpand.Expansion.TwoHopTerm | jp_civil_law/build/easy_analysis/termexpand.py:56-67 | one step of `hyperframes`/`attr_hypers`: it keeps the extension invariant; if nothing was added, every justified successor of the term is already listed |
| TermExpand.Expansion.TwoHopVia | jp_civil_law/build/easy_analysis/termexpand.py:60-67 | the second-hop loop over one successor keeps the invariant; with nothing added, a successor with a second-hop edge into the snapshot is listed |
| TermExpand.Expansion.TwoHopLink | jp_civil_law/build/easy_analysis/termexpand.py:63-67 | one second-hop edge: the successor is yielded iff the edge leads into the snapshot and the successor is unlisted |
| TermExpand.Expansion.NodeRule | jp_civil_law/build/easy_analysis/termexpand.py:69-87 | `hypoframes`/`prerequisites`: every appended node passes the rule's edge test against the list; if nothing was appended, the list is closed under the rule |
| TermExpand.Expansion.NodeStep | jp_civil_law/build/easy_analysis/termexpand.py:71-87 | one node of the graph: it is skipped if listed, and yielded iff it passes the test against the current list |
| TermExpand.AdmitsJustified | jp_civil_law/build/easy_analysis/termexpand.py:76-84 | the set computations (non-empty hypers and slots meeting the list; at least two distinct slot targets listed) decide exactly the rule's reason |
| TermExpand.TargetsMeet | jp_civil_law/build/easy_analysis/termexpand.py:78 | `set(targets).isdisjoint(set(current))` is false iff some labelled edge leads into the list |
| TermExpand.TargetsMeetTwice | jp_civil_law/build/easy_analysis/termexpand.py:114 | the intersection has at least two elements iff edges reach two distinct listed terms |
| TermExpand.Expansion.PathRule | jp_civil_law/build/easy_analysis/termexpand.py:120-167 | `ascending_ways`/`ascendedhubs`: only stops of a hyper-only path between a visited pair of distinct nodes are appended; if nothing was appended, every such stop is listed |
| TermExpand.Expansion.PathsFrom | jp_civil_law/build/easy_analysis/termexpand.py:127 | the pairs `(u, v)` with a fixed `u`, in `permutations` order; it keeps the invariant and closes the pairs it visited |
| TermExpand.Expansion.PairStep | jp_civil_law/build/easy_analysis/termexpand.py:128-140 | one pair: the path is walked only if the pair passes the rule's test and the oracle has a path |
| TermExpand.Expansion.YieldStops | jp_civil_law/build/easy_analysis/termexpand.py:137-140 | every unlisted stop of the path is yielded; if nothing was added, all stops were listed |
| TermExpand.Expansion.YieldUnlisted | jp_civil_law/build/easy_analysis/termexpand.py:138-140 | a stop not yet listed is appended as a justified new node; if nothing was added, the stop was already listed and the expansion is unchanged |
| TermExpand.VisitsPath | jp_civil_law/build/easy_analysis/termexpand.py:129-162 | the path rules' pair test is exactly the reason they give for walking the path |
| TermExpand.PathStops | jp_civil_law/build/easy_analysis/termexpand.py:133-140 | every stop of an oracle path starting at a node is a graph node |
| TermExpand.Expansion.AttrsOfAttrsRule | jp_civil_law/build/easy_analysis/termexpand.py:169-186 | `attrs_of_attrs`: an appended term is an unlisted `attr_slot` successor of a listed term, whose own `attr_slot` edge reaches a listed term adjacent to the first in either direction; if nothing was appended, the list is closed |
| TermExpand.Expansion.AttrsOfTerm | jp_civil_law/build/easy_analysis/termexpand.py:171-186 | one listed term: it keeps the invariant; with nothing added, every attribute-of-attribute of the term is listed |
| TermExpand.Expansion.AttrsOfAttr | jp_civil_law/build/easy_analysis/termexpand.py:175-186 | the edges of one unlisted attribute; with nothing added, the attribute has no qualifying edge |
| TermExpand.Expansion.AttrLink | jp_civil_law/build/easy_analysis/termexpand.py:180-186 | one edge: the attribute is yielded iff it leads to a listed term adjacent to the first |
| TermExpand.Expansion.Run | jp_civil_law/build/easy_analysis/termexpand.py:195-203 | `method(expand, nx_graph)` for each of the seven rules: the list only grows, by nodes that each rule justifies, and an empty run means the list is closed under that rule |
| TermExpand.Pass | jp_civil_law/build/easy_analysis/termexpand.py:39-44 | one pass over `methods`: it extends the list by fresh nodes, keeps the origin of every earlier term and names the rule that appended each new one, and overwrites no score already set; if the pass appended nothing, the list is closed under every method |
| TermExpand.Populate | jp_civil_law/build/easy_analysis/termexpand.py:32-51 | seeds stay the prefix in their order and are scored 0.5; every other term is a non-seed graph node, and the ghost `origin` names the rule that appended it, which justifies it from the terms before it and whose `scorebase` value is its score; the result is closed under every method, i.e. one more pass adds nothing |
| TermExpand.ClosedRunsIdle | jp_civil_law/build/easy_analysis/termexpand.py:36-48 | a list closed under a rule is a fixed point: running the rule adds nothing |
| TermExpand.ExtendsFirst | jp_civil_law/build/easy_analysis/termexpand.py:56-67 | the first appended term is a graph node missing from the list and justified by it |
| TermExpand.PathsAnswered | jp_civil_law/build/easy_analysis/termexpand.py:132-135 | under the `shortest_path` oracle, a pair has an answer iff a hyper-only path joins its nodes |
| TermExpand.PassProgress | jp_civil_law/build/easy_analysis/termexpand.py:45-50 | a pass either leaves the list as it was or strictly shrinks the set of unlisted nodes |
| TermExpand.UnreachedShrinks | jp_civil_law/build/easy_analysis/termexpand.py:45-50 | a growing pass strictly shrinks the set of unlisted nodes, which bounds the loop |
| TermExpand.SameElemsNoGrowth | jp_civil_law/build/easy_analysis/termexpand.py:45 | a fresh extension with the same element set is the list itself |
| TermExpand.JustifiedGrows | jp_civil_law/build/easy_analysis/termexpand.py:57-172 | a reason that holds for a snapshot still holds for any larger list |
| TermExpand.ExtendsAppend | jp_civil_law/build/easy_analysis/termexpand.py:41-43 | appending a justified node that the snapshot lacks keeps the extension invariant |
| TermExpand.DerivedStep | jp_civil_law/build/easy_analysis/termexpand.py:40-44 | a rule run keeps every earlier term's origin and score, and is the origin of every term it appends |
| TermExpand.KeepsScores | jp_civil_law/build/easy_analysis/termexpand.py:42-43 | a rule run sets scores only for the terms it appends: every score it found is kept |
| Graphs.LinksFrom | jp_civil_law/build/easy_analysis/termexpand.py:189-193 | exactly the out-edges of the node whose label is in `props`, in edge order |
| Graphs.KeepLabels | jp_civil_law/build/easy_analysis/user_calc.py:396-399 | the same nodes, and exactly the edges whose label is listed |
| Graphs.RemoveEdge | jp_civil_law/build/easy_analysis/termexpand.py:124 | the same nodes, and every edge except the one between the two endpoints |
| CaseMaker.Dedup | jp_civil_law/build/easy_analysis/casemaker.py:122-127 | the same element set and no duplicates |
| CaseMaker.DedupKeepsFirstOrder | jp_civil_law/build/easy_analysis/casemaker.py:122-127 | elements keep the order of their first occurrences |
| CaseMaker.UniqTerms | jp_civil_law/build/easy_analysis/casemaker.py:122-127 | the `seen` loop computes the deduplicated list |
| CaseMaker.TermSets.constructor | jp_civil_law/build/easy_analysis/casemaker.py:121 | the dict holds the given term sets |
| CaseMaker.TermSets.Uniq | jp_civil_law/build/easy_analysis/casemaker.py:128-130 | rewrites every entry in place to its deduplication; the keys are unchanged |
| CaseMaker.MapMerge | jp_civil_law/build/easy_analysis/casemaker.py:144-147 | the keys of both maps; `map_b` wins where both have a key |
| CaseMaker.BuildBuckets | jp_civil_law/build/easy_analysis/casemaker.py:69-71 | each bucket holds, in order, exactly the distinct terms starting with its character |
| CaseMaker.SortByLenDesc | jp_civil_law/build/easy_analysis/casemaker.py:73 | a permutation ordered by non-increasing length |
| CaseMaker.InsertByLen | jp_civil_law/build/easy_analysis/casemaker.py:73 | one insertion into a longest-first list: adds exactly the element and stays longest first |
| CaseMaker.SortBuckets | jp_civil_law/build/easy_analysis/casemaker.py:72-73 | every bucket is sorted longest first; the keys are unchanged |
| CaseMaker.Prefer | jp_civil_law/build/easy_analysis/casemaker.py:78-85 | a permutation of the bucket in which every member of the preference list comes before every other term |
| CaseMaker.ReorderBucket | jp_civil_law/build/easy_analysis/casemaker.py:78-85 | the `cp_order.remove` / `new_order.append` loop computes that preference pass |
| CaseMaker.ApplyPreferences | jp_civil_law/build/easy_analysis/casemaker.py:77-85 | applying the lists in reverse keeps a permutation, and members of the first list end up ahead of all others |
| CaseMaker.FirstList | jp_civil_law/build/easy_analysis/casemaker.py:77-83 | the index of the first preference list that names the term, or the number of lists: the term is in that list and in none before it |
| CaseMaker.ApplyPreferencesRanked | jp_civil_law/build/easy_analysis/casemaker.py:75-85 | after all the passes, a term whose first list is earlier precedes a term whose first list is later, and terms in no list come last |
| CaseMaker.PreferRanked | jp_civil_law/build/easy_analysis/casemaker.py:78-85 | one pass puts the terms of its list first and keeps the rest in the order the later lists gave them |
| CaseMaker.ApplyPreferencesStable | jp_civil_law/build/easy_analysis/casemaker.py:77-85 | terms in no preference list keep their relative order from the bucket |
| CaseMaker.PreferSkipsUnlisted | jp_civil_law/build/easy_analysis/casemaker.py:80-84 | one pass keeps the relative order of the terms outside its list |
| CaseMaker.ReorderByAll | jp_civil_law/build/easy_analysis/casemaker.py:77-85 | the `reversed(prefer_from)` loop over one bucket computes those passes |
| CaseMaker.PreferBuckets | jp_civil_law/build/easy_analysis/casemaker.py:75-85 | every bucket goes through the preference lists; the keys are unchanged |
| CaseMaker.BucketContents | jp_civil_law/build/easy_analysis/casemaker.py:69-85 | a prepared bucket holds exactly the vocabulary terms starting with its character |
| CaseMaker.PrepareBuckets | jp_civil_law/build/easy_analysis/casemaker.py:69-85 | the bucket preparation computes the grouped, sorted and reordered buckets |
| CaseMaker.Choose | jp_civil_law/build/easy_analysis/casemaker.py:98-104 | a chosen candidate is a prefix of the rest; none is chosen iff no candidate is a prefix |
| CaseMaker.FindCandidate | jp_civil_law/build/easy_analysis/casemaker.py:98-104 | the `for ... else` search returns the first candidate the text starts with, or reports none |
| CaseMaker.ChooseLongest | jp_civil_law/build/easy_analysis/casemaker.py:73-100 | in a longest-first bucket the chosen candidate is the longest matching one |
| CaseMaker.ScanHits | jp_civil_law/build/easy_analysis/casemaker.py:91-109 | every match is the candidate chosen at its position; matches do not overlap and are in input order |
| CaseMaker.EmitTerms | jp_civil_law/build/easy_analysis/casemaker.py:106-107 | emitted tokens are the terms of matches, and never stopwords |
| CaseMaker.ScanSkip | jp_civil_law/build/easy_analysis/casemaker.py:93-104 | a position without a chosen candidate advances one character and emits nothing |
| CaseMaker.ScanTake | jp_civil_law/build/easy_analysis/casemaker.py:106-109 | a chosen candidate is consumed whole, and emitted unless it is a stopword |
| CaseMaker.ScanStep | jp_civil_law/build/easy_analysis/casemaker.py:91-109 | each iteration advances by at least one character, and `sequence_que` stays the reverse of `cp_sequence` |
| CaseMaker.ScanOnce | jp_civil_law/build/easy_analysis/casemaker.py:91-109 | one pass of the loop body consumes the chosen candidate or one character, emits what the scan emits there, and keeps `sequence_que` the reverse of `cp_sequence` |
| CaseMaker.Reversed | jp_civil_law/build/easy_analysis/casemaker.py:88 | `list(reversed(sequence))`: same length, mirrored indices |
| CaseMaker.ScanSequence | jp_civil_law/build/easy_analysis/casemaker.py:87-111 | the `while cp_sequence` loop returns the emitted tokens of the scan |
| CaseMaker.MatchTerms | jp_civil_law/build/easy_analysis/casemaker.py:68-111 | `matchterms` computes the segmentation of the sequence |
| CaseMaker.SplitsAreTerms | jp_civil_law/build/easy_analysis/casemaker.py:98-107 | every emitted token is a vocabulary term and not a stopword; an empty sequence yields `[]` |
| CaseMaker.MatchIsLongest | jp_civil_law/build/easy_analysis/casemaker.py:69-100 | without preference lists, each match is at least as long as any vocabulary term at its position |
| CaseMaker.NoTermMissed | jp_civil_law/build/easy_analysis/casemaker.py:91-104 | a position where a vocabulary term starts always lies inside some match |
| CaseMaker.ScanCovers | jp_civil_law/build/easy_analysis/casemaker.py:91-104 | from any start, a position with a chosen candidate lies inside a match |
| CaseMaker.TermFind | jp_civil_law/build/easy_analysis/casemaker.py:113-119 | `_termfind` concatenates the matches of every sentence in order |
| CaseMaker.FindAllTerms | jp_civil_law/build/easy_analysis/casemaker.py:113-119 | everything `_termfind` reports is a vocabulary term and not a stopword |
| PageRank.PersonalizationMap | jp_civil_law/build/easy_analysis/pagerank.py:7-13 | keys are `whole` plus `targets`; targets weigh `amplify` and every other node weighs 1.0 |
| PageRank.ToDirected | jp_civil_law/build/easy_analysis/pagerank.py:38-44 | an undirected graph becomes directed with the same adjacency; anything else is returned unchanged |
| PageRank.ToDirectedIdempotent | jp_civil_law/build/easy_analysis/pagerank.py:38-44 | converting twice equals converting once, and the result is never undirected |
| PageRank.GraphTypeForPR | jp_civil_law/build/easy_analysis/pagerank.py:31-36 | an error with the multiedge message iff the graph is a multigraph; otherwise a directed graph with the same adjacency |
| PageRank.PageRankStart | jp_civil_law/build/easy_analysis/pagerank.py:105-107 | multigraphs are refused first; otherwise `{}` iff the graph has no node, else iteration on the directed graph |
| PageRank.PersonalizationVector | jp_civil_law/build/easy_analysis/pagerank.py:72-83 | `None` gives `eq_prob` on every node; a supplied vector is refused iff its keys differ from the nodes |
| PageRank.FindDangle | jp_civil_law/build/easy_analysis/pagerank.py:86-93 | exactly the nodes with no out-edge |
| PageRank.SeparateConditional | jp_civil_law/build/easy_analysis/pagerank.py:143-158 | both graphs keep all nodes; the conditional one gets the edges whose label is listed, the static one the others, in edge order, with label and weight |
| PageRank.SeparationPartitions | jp_civil_law/build/easy_analysis/pagerank.py:151-157 | every edge lands in exactly one of the two graphs, and together they hold all edges |
| UserCalc.GroupBy | jp_civil_law/build/easy_analysis/user_calc.py:787 | `itertools.groupby` on the score: the groups concatenate back to the input; each is non-empty with one score; adjacent groups differ |
| UserCalc.KeysMention | jp_civil_law/build/easy_analysis/user_calc.py:788 | a key is in a group's key set iff some pair of the group mentions it |
| UserCalc.FirstStop | jp_civil_law/build/easy_analysis/user_calc.py:787-794 | the loop stops at the first group whose key set, less `qkey`, holds the answer; every earlier group passes |
| UserCalc.RankOf | jp_civil_law/build/easy_analysis/user_calc.py:786-796 | the inner loop returns the closed-form rank, or `ValueError` (`NotRanked`), or the `KeyError` of `equivs.remove(qkey)` (`QueryMissing`) |
| UserCalc.RankWithinGroup | jp_civil_law/build/easy_analysis/user_calc.py:790-791 | an answer tied with k keys after m keys in earlier groups gets m+1+(k−1)/2, between m+1 and m+k |
| UserCalc.RanksFollowGroups | jp_civil_law/build/easy_analysis/user_calc.py:787-794 | two answers in the same group get the same rank; an answer in an earlier group gets a strictly smaller rank |
| UserCalc.NotRankedExactly | jp_civil_law/build/easy_analysis/user_calc.py:795-796 | `ValueError` is raised iff every group mentions `qkey` and the answer is `qkey` or appears in no pair |
| UserCalc.Insert | jp_civil_law/build/easy_analysis/user_calc.py:799 | inserting into an ascending list keeps it ascending and adds exactly the element |
| UserCalc.SortReals | jp_civil_law/build/easy_analysis/user_calc.py:799 | `list.sort()` on reals: ascending, and a permutation |
| UserCalc.AscendingPairs | jp_civil_law/build/easy_analysis/user_calc.py:799 | adjacent order gives order between any two positions |
| UserCalc.KeymapRanks | jp_civil_law/build/easy_analysis/user_calc.py:783-800 | the first error if any answer is unranked; otherwise one rank per answer, in answer order, sorted ascending when `noorder` |
| UserCalc.RanksOk | jp_civil_law/build/easy_analysis/user_calc.py:785-797 | the ranks succeed iff every answer is ranked; then there is one value per answer, each that answer's rank |
| UserCalc.RanksErr | jp_civil_law/build/easy_analysis/user_calc.py:785-797 | a failure is the error of the first answer that cannot be ranked |
| UserCalc.RanksAppend | jp_civil_law/build/easy_analysis/user_calc.py:785-797 | ranking a longer answer list extends the ranks of the shorter one |
| UserCalc.RanksExtend | jp_civil_law/build/easy_analysis/user_calc.py:785-797 | one more answer either appends its rank or makes its error the result for the whole list |
| UserCalc.HierarchyReduce | jp_civil_law/build/easy_analysis/user_calc.py:407-421 | the length is kept and every output term comes from the termset; excepted terms are never removed; a removed term is reducible; `reduced` is true iff some replacement happened, and otherwise the list is unchanged |
| UserCalc.ReduceStep | jp_civil_law/build/easy_analysis/user_calc.py:411-420 | one pair: a replacement happens iff the hyper is not excepted, differs from the hypo, both are nodes, the hypo reaches the hyper and the hyper is still listed |
| UserCalc.RemoveFirst | jp_civil_law/build/easy_analysis/user_calc.py:418 | `list.remove` drops one occurrence: one shorter, and the multiset loses exactly that element |
| UserCalc.ExceptsKept | jp_civil_law/build/easy_analysis/user_calc.py:411-412 | an excepted term occurs in the output at least as often as in the input |
| UserCalc.ReducibleByHierarchy | jp_civil_law/build/easy_analysis/user_calc.py:396-418 | a term is reducible iff it is not excepted and another listed term reaches it by a hyper-only path |
| UserCalc.HierarchyGraph | jp_civil_law/build/easy_analysis/user_calc.py:396-399 | the hierarchy graph keeps the nodes and exactly the `hyper`/`hyperx` edges |
| UserCalc.SortedSet | jp_civil_law/build/easy_analysis/user_calc.py:333-334 | `sorted(set(xs))`: strictly increasing in code-point order, with the same elements |
| UserCalc.SortedUnique | jp_civil_law/build/easy_analysis/user_calc.py:333-334 | two strictly sorted lists with the same elements are equal |
| UserCalc.StrLessTotal | jp_civil_law/build/easy_analysis/user_calc.py:333 | string order is total on distinct strings |
| UserCalc.StrLessTrans | jp_civil_law/build/easy_analysis/user_calc.py:333 | string order is transitive |
| UserCalc.BridgeFrom | jp_civil_law/build/easy_analysis/user_calc.py:341-345 | the inner loop appends, in order, the to-terms the from-term reaches |
| UserCalc.Bridge | jp_civil_law/build/easy_analysis/user_calc.py:331-348 | `_bridge` returns the from-terms followed by the appends of each sorted from-term over the sorted new to-terms |
| UserCalc.AppendsMembers | jp_civil_law/build/easy_analysis/user_calc.py:340-345 | a term is appended iff it is a target bridged from some from-term |
| UserCalc.BridgeSoundComplete | jp_civil_law/build/easy_analysis/user_calc.py:326-348 | the from-terms stay the prefix; a term is appended iff it is in `toterms`, not in `fromterms`, a node, and reached from a from-term that is a node |
| UserCalc.BridgeGraph | jp_civil_law/build/easy_analysis/user_calc.py:325-329 | with `expandother` the whole graph, otherwise only its hyper edges |
| UserCalc.ScaleByBase | jp_civil_law/build/easy_analysis/user_calc.py:201-203 | multiplication mode: each base key's weight multiplies the filtered weight; the first base key the filtered map lacks raises |
| UserCalc.ZeroByBase | jp_civil_law/build/easy_analysis/user_calc.py:204-207 | zeroing mode: exactly the entries whose base weight is 0.0 become 0.0; a key the base lacks raises |
| UserCalc.CutoffFilter | jp_civil_law/build/easy_analysis/user_calc.py:198-209 | `_filter` fails iff a needed key is missing; otherwise it returns new values and leaves its inputs untouched; in zeroing mode it also keeps only the terms in `terms_base`, in order |
| UserCalc.ModesAgreeOnIndicators | jp_civil_law/build/easy_analysis/user_calc.py:201-207 | on a base of 0.0/1.0 indicator weights the two modes give the same map |
| UserCalc.ZeroedWhereIdempotent | jp_civil_law/build/easy_analysis/user_calc.py:204-207 | zeroing twice against the same base equals zeroing once |
| UserCalc.ZeroOutside | jp_civil_law/build/easy_analysis/user_calc.py:483-488 | entries outside the seed set become 0.0; the others are kept |
| UserCalc.Cutoff | jp_civil_law/build/easy_analysis/user_calc.py:476-488 | each side keeps, in order, the expanded terms in its seeds plus the common expansion; map entries outside that set are 0.0 |
| UserCalc.CutoffConfines | jp_civil_law/build/easy_analysis/user_calc.py:478-488 | after the cutoff every kept term lies in the seed set, and every non-zero entry does too |
| UserCalc.CutoffIdempotent | jp_civil_law/build/easy_analysis/user_calc.py:478-488 | cutting the already cut terms again changes nothing |
| RelationProvider.RelationChecker.constructor | lkbutils/relationprovider/__init__.py:27-48 | `relation` and the three rules are the arguments, and no link is stored |
| RelationProvider.RelationChecker.Add | lkbutils/relationprovider/__init__.py:50-98 | `add` as written: the dry, nointerlinks and acyclic checks in order, each refusing with its message; dry and nointerlinks refusals leave the links as they were; a cyclic refusal keeps the link appended through the shared list; an acceptance returns `(src, dest)` and appends once, or twice when the shared list was extended |
| RelationProvider.RelationChecker.AddIsolated | lkbutils/relationprovider/__init__.py:50-98 | the corrected `add`: a refusal leaves the links unchanged; acceptance records the link once; an acyclic checker's store stays acyclic |
| RelationProvider.FindCycle | lkbutils/relationprovider/__init__.py:78-98 | the depth-first search reports a path iff the links hold a cycle, and a reported path is a chain whose last node occurs earlier |
| RelationProvider.Visit | lkbutils/relationprovider/__init__.py:78-91 | `visit(node)` reports a cyclic path, or finishes the node after all its successors |
| RelationProvider.CyclicPathNotAcyclic | lkbutils/relationprovider/__init__.py:81-86 | a reported path contains a cycle |
| RelationProvider.FinishedAcyclic | lkbutils/relationprovider/__init__.py:93-98 | when every source has finished, the finishing order is topological and no cycle exists |
| RelationProvider.CyclicMessage | lkbutils/relationprovider/__init__.py:12-19 | the message starts with `cyclic path found on "`, and names the relation (`None` when unset) and every node of the path |
| PyStr.JoinContains | lkbutils/relationprovider/__init__.py:12-19 | every part of `sep.join(parts)` occurs in the joined text |
| RelationProvider.Linked | lkbutils/relationprovider/__init__.py:59 | appending adds `dest` after `src`'s existing targets and changes no other source |
| RelationProvider.TouchSame | lkbutils/relationprovider/__init__.py:62-72 | reading a missing key of the defaultdict stores an empty list and changes no targets |
| RelationProvider.SameLinksAcyclic | lkbutils/relationprovider/__init__.py:74-98 | acyclicity depends only on each source's targets |
| RelationProvider.DryExample | lkbutils/relationprovider/__init__.py:62-66 | under `dry`, repeating a link is refused with `link exists: Tokyo -> Saitama` |
| RelationProvider.InterLinkExample | lkbutils/relationprovider/__init__.py:68-72 | under `nointerlinks`, the reverse link is refused with `inverse link found against Tokyo -> Yamanashi` |
| RelationProvider.InterLinkFirst | lkbutils/relationprovider/__init__.py:49-72 | under `nointerlinks`, the first link `Yamanashi -> Tokyo` is accepted and stored |
| RelationProvider.ChainOfTwo | lkbutils/relationprovider/__init__.py:50-98 | under `acyclic`, `a -> b` and `b -> c` are both accepted |
| RelationProvider.CyclicRefusalKeepsLink | lkbutils/relationprovider/__init__.py:74-86 | `b -> a` after that chain is refused as cyclic, yet `b`'s stored list becomes `[c, a]` |
| RelationProvider.DuplicateOnAccept | lkbutils/relationprovider/__init__.py:49-76 | with `dry` and `acyclic`, one accepted link is stored twice |
| RelationProvider.IsolatedChainOfTwo | lkbutils/relationprovider/__init__.py:50-60 | the corrected add accepts the same chain |
| RelationProvider.IsolatedRefusalExample | lkbutils/relationprovider/__init__.py:74-86 | the corrected add refuses `b -> a` and leaves `b`'s list as `[c]` |
| RelationProvider.OneLinkAcyclic | lkbutils/relationprovider/__init__.py:93-98 | a single link between distinct nodes is no cycle |
| RelationProvider.TwoLinksAcyclic | lkbutils/relationprovider/__init__.py:93-98 | two links in a row between distinct nodes are no cycle |
| NodeProvider.HandleSpacingChars | lkbutils/nodeprovider/__init__.py:68-69 | the result contains no whitespace |
| NodeProvider.SpacingOfSpaced | lkbutils/nodeprovider/__init__.py:68-69 | words separated by whitespace runs of any length, with any whitespace at either end, come out joined by single underscores |
| NodeProvider.SpacingSplits | lkbutils/nodeprovider/__init__.py:68-69 | every name is its words separated by whitespace runs, and the result is exactly those words joined by `_` |
| NodeProvider.SpacingRunsExample | lkbutils/nodeprovider/__init__.py:68-69 | `"  a \t b  "` becomes `a_b` |
| NodeProvider.SpacingKeepsText | lkbutils/nodeprovider/__init__.py:68-69 | apart from underscores, the result is exactly the non-whitespace text in order |
| NodeProvider.SpacingOfJoin | lkbutils/nodeprovider/__init__.py:68-69 | words joined by single spaces come out joined by single underscores |
| NodeProvider.SpacingKeepsWord | lkbutils/nodeprovider/__init__.py:68-69 | a non-empty name without whitespace is unchanged |
| NodeProvider.PreprocessName | lkbutils/nodeprovider/__init__.py:61-66 | the normalised name has no whitespace and no upper-case ASCII letter |
| NodeProvider.ValidPreprocessedName | lkbutils/nodeprovider/__init__.py:17 | after preprocessing, `$`'s allowance for a final newline never applies |
| NodeProvider.AcceptedNameShape | lkbutils/nodeprovider/__init__.py:17 | an accepted name has at least 2 characters, starts with a lower-case ASCII letter or `_`, and has only lower-case ASCII word characters |
| NodeProvider.ForeignCharRejected | lkbutils/nodeprovider/__init__.py:17 | a name with a character that is not whitespace and whose lower case is not an ASCII word character is refused |
| NodeProvider.LowersToWordChar | lkbutils/nodeprovider/__init__.py:65 | a character lowers to an ASCII word character iff it is one already, or is U+0130 or U+212A |
| NodeProvider.KelvinExample | lkbutils/nodeprovider/__init__.py:61-66 | a name spelt with the Kelvin sign, `\u212aen`, normalises to the valid name `ken` |
| NodeProvider.NameProvider.constructor | lkbutils/nodeprovider/__init__.py:25-35 | the store is empty |
| NodeProvider.NameProvider.NsLookup | lkbutils/nodeprovider/__init__.py:85-99 | `getattr(ns, key)` finds a value iff the key is registered, and it is the registered spelling |
| NodeProvider.NameProvider.Add | lkbutils/nodeprovider/__init__.py:42-78 | `InvalidName` or `NameConflict` leave the store unchanged; success returns the normalised name and maps it to the original spelling; the store only grows, and no existing entry changes |
| NodeProvider.NameProvider.AddToStore | lkbutils/nodeprovider/__init__.py:74-78 | an existing key conflicts and leaves the store; a new key is stored with the original spelling |
| NodeProvider.JohnExample | lkbutils/nodeprovider/__init__.py:61-66 | `John` normalises to `john` |
| NodeProvider.KenConflictExample | lkbutils/nodeprovider/__init__.py:61-78 | `Ken` and `ken` both normalise to `ken`, so the second add conflicts |
| NodeProvider.LeadingDigitExample | lkbutils/nodeprovider/__init__.py:55-59 | `3way` is refused |
| NodeProvider.NonAsciiExample | lkbutils/nodeprovider/__init__.py:55-59 | `魂` is refused |
| NodeProvider.ApostropheExample | lkbutils/nodeprovider/__init__.py:55-59 | `I'm fine` is refused |
| PyStr.Strip | lkbutils/nodeprovider/kakasicall.py:98 | `strip()`: no longer than the input; empty iff the input is all whitespace; otherwise it starts and ends with non-whitespace; text without whitespace is unchanged |
| PyStr.WordsKeepText | lkbutils/nodeprovider/__init__.py:69 | `split()` keeps every non-whitespace character in order, and nothing else |
| PyStr.WordsOfJoin | lkbutils/nodeprovider/__init__.py:69 | `split()` undoes a single-space join of non-empty words |
| PyStr.WordsOfSpaced | lkbutils/nodeprovider/__init__.py:69 | `split()` of non-empty words separated by non-empty whitespace runs, with optional whitespace at either end, gives back the words |
| PyStr.SpacedOfWords | lkbutils/nodeprovider/__init__.py:69 | conversely, every string is its `split()` words separated by such runs: each word is a maximal run of non-whitespace |
| PyStr.SplitOn | lkbutils/declarative/__init__.py:284 | `split(u' ')`: the fields contain no separator, join back to the input, and number one more than the separators |
| PyStr.LowerChar | lkbutils/nodeprovider/__init__.py:65 | `lower()` on one character: an ASCII capital becomes its small letter, U+0130 becomes `i` and U+212A becomes `k`; the result is ASCII iff the input is ASCII or one of those two, and is never an ASCII capital |
| PyStr.Lower | lkbutils/nodeprovider/__init__.py:65 | `lower()`: same length, each character lowered on its own by `LowerChar` |
| Declarative.LeavesFromStruct | lkbutils/declarative/__init__.py:7-32 | the traversal fails (TypeError) iff a non-string scalar occurs; otherwise it yields one item per string leaf |
| Declarative.LeavesOfSeq | lkbutils/declarative/__init__.py:19-22 | a list yields its children's leaves in order, and stops at the first child that fails |
| Declarative.LeavesOfEntries | lkbutils/declarative/__init__.py:23-26 | a dict yields the leaves of its values in iteration order |
| Declarative.DictAsList | lkbutils/declarative/__init__.py:23-26 | a dict is traversed exactly like the list of its values |
| Declarative.KeysIgnored | lkbutils/declarative/__init__.py:23-26 | dicts with the same values in the same order yield the same leaves, whatever their keys |
| Declarative.LeavesOfStrs | lkbutils/declarative/__init__.py:15-22 | a flat list of strings yields those strings, in order |
| Declarative.FlattenKeepsLeaves | lkbutils/declarative/__init__.py:7-26 | a nested structure yields what the flat list of its leaves yields |
| Declarative.LeavesOccur | lkbutils/declarative/__init__.py:15-26 | every yielded leaf is a string occurring in the data |
| Declarative.TermLoader.constructor | lkbutils/declarative/__init__.py:38-40 | no term has been added |
| Declarative.TermLoader.Load | lkbutils/declarative/__init__.py:61-71 | every leaf is added, in traversal order, with the given `as_property`; a TypeError is reported after the leaves before it were added |
| Declarative.TermLoader.AddTerm | lkbutils/declarative/__init__.py:97-98 | one call to the node provider is recorded |
| Declarative.ParsePair | lkbutils/declarative/__init__.py:283-284 | the fields contain no space and join back with single spaces to the pair text |
| Declarative.ParsePairOfPair | lkbutils/declarative/__init__.py:283-284 | `"src dest"` parses back to `(src, dest)` |
| Declarative.Get | lkbutils/declarative/__init__.py:244-245 | `dict.get`: the default for a missing key, otherwise the key's value |
| Declarative.ToMap | lkbutils/declarative/__init__.py:268 | the keys of the options dict |
| Declarative.ToMapLast | lkbutils/declarative/__init__.py:268 | a key's value is that of its last entry, as successive assignments leave it |
| Declarative.UpdateItem | lkbutils/declarative/__init__.py:268 | an item given to `dict.update` is a pair only if it has two items and a hashable first item: a two-character string, a two-item list whose first item is not a list or dict (its second item is the value), or a two-key dict; a number, boolean or null fails |
| Declarative.ItemEntries | lkbutils/declarative/__init__.py:268 | a list updates iff every item is a pair, and then gives one pair per item, in order |
| Declarative.UpdateEntries | lkbutils/declarative/__init__.py:268 | `dict.update(x)`: a dict gives its entries and a list one pair per item; the empty string gives nothing; any other string, and a number, boolean or null, fail with `BadUpdate` |
| Declarative.CreateConfig | lkbutils/declarative/__init__.py:265-280 | a non-dict relation fails with `NoGet`; options that `update` cannot read fail with `BadUpdate`; a scalar among the pairs fails; otherwise the relation's options override the global ones, the rest keep their global values, and there is one parsed pair per leaf of `pairs` |
| Declarative.CreateConfigOverrides | lkbutils/declarative/__init__.py:267-268 | options given as an empty list, string or dict leave the global options as they are; given as a list of pairs, a new key takes the value of its last pair |
| Declarative.ConfigsSnoc | lkbutils/declarative/__init__.py:247-252 | one more relation either adds its configuration or makes its error the result |
| Declarative.ConfigsOf | lkbutils/declarative/__init__.py:246-253 | a configuration for each relation name, or the first error |
| Declarative.LoadRelationConfigs | lkbutils/declarative/__init__.py:246-253 | the loop over relations computes those configurations |
| Declarative.ConfigsIndependent | lkbutils/declarative/__init__.py:247-268 | each relation's configuration is built from the untouched global options, so overrides never leak between relations |
| Declarative.ConfigsErrExtends | lkbutils/declarative/__init__.py:246-253 | once a relation fails, the whole load fails with that error |
| Declarative.LoadYaml | lkbutils/declarative/__init__.py:243-253 | a non-dict document fails; without relations (an empty dict, list or string) the result is `{}`, whatever the options; with relations, dict options give the relations' configurations under those options, and any other options fail at `.copy()`; a non-empty list or string of relations fails at indexing, and a scalar is not iterable |
| KakasiCall.RomanizePlan | lkbutils/nodeprovider/kakasicall.py:29-81 | a `ValueError` with its message iff the destination is not ASCII or JIS roman; otherwise one step per conversion, chained from katakana to the destination |
| KakasiCall.Zip | lkbutils/nodeprovider/kakasicall.py:76 | `zip`: pairs up to the shorter length |
| KakasiCall.HandleEuphonic | lkbutils/nodeprovider/kakasicall.py:102-104 | the rewrite preserves length |
| KakasiCall.EuphonicScan | lkbutils/nodeprovider/kakasicall.py:102-104 | position by position, the result holds the previous character exactly where a non-overlapping left-to-right match ends (`MatchSecond`), and the original character everywhere else |
| KakasiCall.MatchSecondShift | lkbutils/nodeprovider/kakasicall.py:102-104 | past a position that ends no match, the scan restarts there |
| KakasiCall.MarkAfterMarkExamples | lkbutils/nodeprovider/kakasicall.py:102-104 | `x'^` becomes `xx^` and a newline followed by `'^` becomes a newline and `''` |
| KakasiCall.EuphonicKeepsNonMarks | lkbutils/nodeprovider/kakasicall.py:102-104 | a character that is not `'` or `^` is never rewritten |
| KakasiCall.EuphonicChangesOnlyMarks | lkbutils/nodeprovider/kakasicall.py:102-104 | a rewritten position held a mark, and now repeats the non-newline character before it |
| KakasiCall.EuphonicDoublesAfterPlain | lkbutils/nodeprovider/kakasicall.py:102-104 | a mark after an ordinary character is always replaced by that character |
| KakasiCall.EuphonicWithoutMarks | lkbutils/nodeprovider/kakasicall.py:102-104 | text without marks comes back unchanged |
| KakasiCall.Prettify | lkbutils/nodeprovider/kakasicall.py:97-100 | stripped and rewritten: the stripped length; empty iff the output was all whitespace; no leading whitespace |
| Common.Filter | jp_civil_law/build/easy_analysis/user_calc.py:208 | a comprehension with a condition: exactly the elements that pass, in order |
| Common.FilterConcat | jp_civil_law/build/easy_analysis/user_calc.py:208 | filtering distributes over concatenation |

## Left out

- Romanization (`romanize=True`, `try_romanize`, `romanize`): it spawns `echo`, `iconv` and `kakasi` processes. Only the plan of steps and the output post-processing are modelled.
- `PyStr.LowerChar`: of the non-ASCII characters, only U+0130 and U+212A, whose lower case is ASCII, are lowered; every other one is kept. Python lowers the remaining non-ASCII capitals to other non-ASCII letters. The ASCII-only name pattern refuses a name holding either form, so only the text of the `InvalidName` message can differ.
- `NodeProvider.PreprocessName`: lowers through `PyStr.LowerChar`, with the same effect on the `InvalidName` message text only.
- `NodeProvider.NameProvider.NsLookup`: answers from the store alone. In Python, `__getattr__` runs only when normal attribute lookup fails, so the accessor's own attributes take precedence over the store. The names `_dict`, `__init__`, `__doc__`, `__class__` and the other attributes of the accessor and of `object` match the name pattern, and they are shadowed. For such a key, `getattr` returns the attribute whether or not the key is registered; the model returns the registered spelling or None. For every other key the model agrees, and the fallback at line 95 can only raise `AttributeError`.
- Python 2 `str` versus `unicode` is not distinguished: both are `string`. The `TypeError` message text of `leaves_from_struct` is not modelled.
- `KakasiCall.Prettify`: the process output is a byte string, whose `strip()` removes only space, tab, newline, carriage return, vertical tab and form feed. The model strips the Unicode whitespace set, which also removes U+001C to U+001F, U+0085, U+00A0 and the other Unicode spaces.
- The node provider that `TermLoader` feeds (RDF graphs) is not part of this model. The loader records the `add(name, as_property)` calls instead.
- YAML parsing is not modelled. Parsed data is the `Yaml` datatype, and a dict keeps the unspecified iteration order as its entry order. `load_yaml`'s failures on a relations value that is a non-empty list or string are approximated as one `BadIndex` error. Dict keys are strings: a YAML key that is a number, boolean or null is represented by its text.
- `Declarative.UpdateItem`: a pair whose first item is a number, boolean or null is keyed by that item's text, because option keys are strings here. Python keeps the number itself as the key.
- `yaml_data` options passed as keyword arguments (`**options`) and `_create_loader` are not modelled. The loader construction is in the RDF layer.
- `set(terms)` in `matchterms` is iterated in first-occurrence order. Equal-length terms never compete at one position, so the result does not depend on it.
- The self-check examples of `casemaker.py` (lines 152-164) are not restated as lemmas about the literal inputs. The properties they illustrate are proved for all inputs: longest match, preference order and stopword skipping.
- `as_dist_map` and the other helpers of `casemaker.py` that read files are outside the modelled core.
- The PageRank power iteration, `stochastic`, `v_normalize`, `start_vector` and `converged` are floating-point computations and are not modelled. `PersonalizationVector` does not normalise the supplied values, so a vector whose values sum to zero is accepted where Python would divide by zero.
- An edge without a `label` or `weight` attribute, for which networkx raises `KeyError`, cannot be expressed: every `Graphs.Edge` carries both.
- `networkx.shortest_path` is the `TermExpand.Paths` oracle. Which of several shortest paths networkx returns is not visible. `PathsIn` states both halves of what it promises. The rules and `Populate` only ever need the first half, that an answer is a hyper-only path (`PathsSound`), so they require only that.
- `CaseMaker.ApplyPreferences`: the order among terms whose first preference list is the same is not stated. The passes order such terms by the later lists first. Only the terms in no list are proved to keep their bucket order (`ApplyPreferencesStable`).
- `networkx.has_path` is the oracle set of `UserCalc.HasPathOracle`. The caches of `_upper` and `_bridge` only memoise its answers, so they are not modelled.
- Logging in `populate` and the rules, and the `reasons` the rules yield, are not modelled.
- The networkx edge snapshot that `ascending_ways` removes edges from is modelled as the edge list of the copy. Removal by endpoints matches it because a `DiGraph` has at most one edge per ordered pair.
- Python dict iteration order (`links.keys()` in `_check_acyclic`, `map_filtered.keys()`, `map_base.iteritems()`) is a nondeterministic choice. Every stated result is independent of it.
- `visit` in `_check_acyclic` is recursive; Python's recursion limit on deep link chains is not modelled.
- The first `keymap_ranks` definition (user_calc.py:760-781) is shadowed by the second one and is not modelled.
- `itertools.groupby` is modelled as the function `UserCalc.GroupBy`, and `list.sort` on ranks as the insertion sort `UserCalc.SortReals`. Ranks are exact `real`s, so float rounding and `-0.0` are not modelled.
- The `_jmap` closures that wire `_filter`, `_bridge` and `_hierarchy_reduce` into the similarity computation are not modelled. Neither are the `jmapper`, expander and link-rater calls they make. In `fn_joint_hierarchyreduce`'s `_jmap` (user_calc.py:425) the excepts of side b are `termsets[key_b]` twice. That is harmless for membership, so it is not reported as a finding.
- `UserCalc.HierarchyReduce`: `itertools.permutations(termset, 2)` pairs positions, not values. The model follows that, but does not state which term replaced which.

## Findings

| source | as written | input that shows it | evidently intended | confidence | as-written member | corrected member |
|---|---|---|---|---|---|---|
| lkbutils/relationprovider/__init__.py:75-76 | `_check_acyclic` appends the new link to `self._links.copy()`, a shallow copy whose list for `src` is the stored list, so a link refused with `Cyclic` stays stored | a checker with `acyclic=True`: `add(a, b)`, `add(b, c)`, then `add(b, a)` raises `Cyclic`, yet `b`'s links become `[c, a]` and the store holds the cycle `a -> b -> a` | a refused link leaves the store unchanged, and an acyclic checker's store stays acyclic | high (not executed) | RelationProvider.CyclicRefusalKeepsLink | RelationProvider.RelationChecker.AddIsolated |
| lkbutils/relationprovider/__init__.py:49-76 | when `src` is already a key (always once `_check_dry` has read it), the copy's append reaches the stored list and `add` appends again, so an accepted link is stored twice | a checker with `dry=True, acyclic=True`: `add(Tokushima, Kouchi)` returns normally and stores `[Kouchi, Kouchi]` | an accepted link is stored once, so `dry` can refuse the next repeat of it without a duplicate already present | high (not executed) | RelationProvider.DuplicateOnAccept | RelationProvider.RelationChecker.AddIsolated |
