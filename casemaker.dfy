/** Term extraction by greedy longest-prefix matching
    (jp_civil_law/build/easy_analysis/casemaker.py): `matchterms`,
    `termfind_func`, `uniq` and `mapmerge`. */
module CaseMaker {
  import opened Common

  // ---------------------------------------------------------------------
  // Order-preserving deduplication (`_uniq` inside `uniq`, and the
  // iteration order assumed for `set(terms)`).

  /** The distinct elements of `s`, each at the place of its first occurrence. */
  function Dedup(s: seq<string>): (r: seq<string>)
    ensures forall x :: x in r <==> x in s
    ensures forall i, j :: 0 <= i < j < |r| ==> r[i] != r[j]
    ensures |r| <= |s|
    decreases |s|
  {
    if s == [] then []
    else
      var init := s[..|s| - 1];
      var r := Dedup(init);
      assert forall x :: x in s <==> x in init || x == s[|s| - 1];
      if s[|s| - 1] in r then r else r + [s[|s| - 1]]
  }

  /** Index of the first occurrence of `x` in `s`. */
  function FirstIndex(s: seq<string>, x: string): (i: nat)
    requires x in s
    ensures i < |s| && s[i] == x && x !in s[..i]
  {
    if s[0] == x then 0 else 1 + FirstIndex(s[1..], x)
  }

  lemma FirstIndexPrefix(s: seq<string>, n: nat, x: string)
    requires n <= |s| && x in s[..n]
    ensures FirstIndex(s, x) == FirstIndex(s[..n], x)
  {
    var i := FirstIndex(s[..n], x);
    assert s[..n][i] == s[i];
  }

  /** `_uniq` keeps first-occurrence order: elements appear in the order in
      which they first occur in the input. */
  lemma {:induction false} DedupKeepsFirstOrder(s: seq<string>)
    ensures forall i, j :: 0 <= i < j < |Dedup(s)| ==> FirstIndex(s, Dedup(s)[i]) < FirstIndex(s, Dedup(s)[j])
    decreases |s|
  {
    if s != [] {
      var n := |s| - 1;
      var init := s[..n];
      DedupKeepsFirstOrder(init);
      var r0 := Dedup(init);
      forall x | x in r0
        ensures FirstIndex(s, x) == FirstIndex(init, x) < n
      {
        FirstIndexPrefix(s, n, x);
      }
      var r := Dedup(s);
      if s[n] in r0 {
        assert r == r0;
      } else {
        assert r == r0 + [s[n]];
      }
      forall i, j | 0 <= i < j < |r|
        ensures FirstIndex(s, r[i]) < FirstIndex(s, r[j])
      {
        assert r[i] == r0[i];
        FirstIndexPrefix(s, n, r0[i]);
        if j < |r0| {
          assert r[j] == r0[j];
          FirstIndexPrefix(s, n, r0[j]);
        }
      }
    }
  }

  /** `_uniq(termset)`: the `seen` loop. */
  method UniqTerms(termset: seq<string>) returns (seen: seq<string>)
    ensures seen == Dedup(termset)
  {
    seen := [];
    var i := 0;
    while i < |termset|
      invariant 0 <= i <= |termset|
      invariant seen == Dedup(termset[..i])
    {
      assert termset[..i + 1][..i] == termset[..i];
      if termset[i] !in seen {
        seen := seen + [termset[i]];
      }
      i := i + 1;
    }
    assert termset[..i] == termset;
  }

  /** `uniq(term_sets)` rewrites every entry of the dict it is given. */
  class TermSets {
    var sets: map<string, seq<string>>

    constructor (initial: map<string, seq<string>>)
      ensures sets == initial
    {
      sets := initial;
    }

    method Uniq()
      modifies this
      ensures sets.Keys == old(sets).Keys
      ensures forall k :: k in sets ==> sets[k] == Dedup(old(sets)[k])
    {
      var todo := sets.Keys;
      while todo != {}
        invariant todo <= sets.Keys && sets.Keys == old(sets).Keys
        invariant forall k :: k in sets ==> sets[k] == if k in todo then old(sets)[k] else Dedup(old(sets)[k])
        decreases todo
      {
        var key :| key in todo;
        var unique := UniqTerms(sets[key]);
        sets := sets[key := unique];
        todo := todo - {key};
      }
    }
  }

  /** `mapmerge(map_a, map_b)`: a copy of `map_a` updated with `map_b`. */
  function MapMerge(a: map<string, real>, b: map<string, real>): (r: map<string, real>)
    ensures r.Keys == a.Keys + b.Keys
    ensures forall k :: k in b ==> r[k] == b[k]
    ensures forall k :: k in a && k !in b ==> r[k] == a[k]
  {
    a + b
  }

  // ---------------------------------------------------------------------
  // Buckets of `matchterms`: `termdict`.

  predicate StartsWithChar(t: string, c: char) {
    |t| > 0 && t[0] == c
  }

  /** Selects the terms that start with `c`. */
  function FirstIs(c: char): string -> bool
  {
    t => StartsWithChar(t, c)
  }

  /** `termdict[c]` of a defaultdict: missing buckets are empty. */
  function Candidates(buckets: map<char, seq<string>>, c: char): seq<string> {
    if c in buckets then buckets[c] else []
  }

  /** `buckets` groups the terms of `terms` by first character, in order. */
  ghost predicate GroupedBy(buckets: map<char, seq<string>>, terms: seq<string>) {
    && buckets.Keys == FirstChars(terms)
    && (forall c :: c in buckets ==> buckets[c] == Filter(terms, FirstIs(c)))
  }

  /** The bucket loop over `set(terms)`: every distinct term is appended to
      the bucket of its first character. */
  method BuildBuckets(unique: seq<string>) returns (buckets: map<char, seq<string>>)
    requires forall t :: t in unique ==> t != []
    ensures GroupedBy(buckets, unique)
  {
    buckets := map[];
    var i := 0;
    while i < |unique|
      invariant 0 <= i <= |unique|
      invariant GroupedBy(buckets, unique[..i])
    {
      var t := unique[i];
      assert t in unique;
      assert unique[..i + 1] == unique[..i] + [t];
      GroupedByAppend(buckets, unique[..i], t);
      buckets := buckets[t[0] := Candidates(buckets, t[0]) + [t]];
      i := i + 1;
    }
    assert unique[..i] == unique;
  }

  lemma GroupedByAppend(buckets: map<char, seq<string>>, terms: seq<string>, t: string)
    requires GroupedBy(buckets, terms) && t != []
    ensures GroupedBy(buckets[t[0] := Candidates(buckets, t[0]) + [t]], terms + [t])
  {
    FirstCharsAppend(terms, t);
    var grown := buckets[t[0] := Candidates(buckets, t[0]) + [t]];
    forall c | c in grown
      ensures grown[c] == Filter(terms + [t], FirstIs(c))
    {
      BucketAppend(buckets, terms, t, c);
    }
  }

  lemma FirstCharsAppend(terms: seq<string>, t: string)
    requires t != []
    ensures FirstChars(terms + [t]) == FirstChars(terms) + {t[0]}
  {
  }

  lemma BucketAppend(buckets: map<char, seq<string>>, terms: seq<string>, t: string, c: char)
    requires GroupedBy(buckets, terms) && t != []
    requires c == t[0] || c in buckets
    ensures Filter(terms + [t], FirstIs(c)) == (if c == t[0] then Candidates(buckets, c) + [t] else buckets[c])
  {
    FilterConcat(terms, [t], FirstIs(c));
    if c == t[0] && c !in buckets {
      FilterNone(terms, c);
    }
  }

  lemma FilterNone(s: seq<string>, c: char)
    requires forall t :: t in s ==> !StartsWithChar(t, c)
    ensures Filter(s, FirstIs(c)) == []
  {
  }

  /** Descending length, as `sort(reverse=True, key=len)` leaves a list. */
  predicate SortedByLen(s: seq<string>) {
    forall i, j :: 0 <= i < j < |s| ==> |s[i]| >= |s[j]|
  }

  /** Bucket order by descending length (`sort(reverse=True, key=len)`),
      as a stable insertion sort. */
  function SortByLenDesc(s: seq<string>): (r: seq<string>)
    ensures multiset(r) == multiset(s)
    ensures SortedByLen(r)
    decreases |s|
  {
    if s == [] then []
    else
      var init := s[..|s| - 1];
      assert s == init + [s[|s| - 1]];
      InsertByLen(s[|s| - 1], SortByLenDesc(init))
  }

  /** Places `t` after every element at least as long as it. */
  function InsertByLen(t: string, sorted: seq<string>): (r: seq<string>)
    requires SortedByLen(sorted)
    ensures multiset(r) == multiset(sorted) + multiset{t}
    ensures SortedByLen(r)
    ensures |r| > 0 && (r[0] == t || (sorted != [] && r[0] == sorted[0]))
  {
    if sorted == [] then [t]
    else if |sorted[0]| >= |t| then
      var rest := InsertByLen(t, sorted[1..]);
      assert sorted == [sorted[0]] + sorted[1..];
      ConsSorted(sorted[0], rest);
      [sorted[0]] + rest
    else
      ConsSorted(t, sorted);
      [t] + sorted
  }

  /** A sorted list stays sorted under a head at least as long as its own. */
  lemma ConsSorted(x: string, rest: seq<string>)
    requires SortedByLen(rest) && (rest != [] ==> |x| >= |rest[0]|)
    ensures SortedByLen([x] + rest)
  {
    forall i, j | 0 <= i < j < |[x] + rest|
      ensures |([x] + rest)[i]| >= |([x] + rest)[j]|
    {
      if i > 0 {
        assert ([x] + rest)[i] == rest[i - 1];
      }
      assert ([x] + rest)[j] == rest[j - 1];
    }
  }

  function InPreference(preference: seq<string>): string -> bool {
    t => t in preference
  }

  function NotInPreference(preference: seq<string>): string -> bool {
    t => t !in preference
  }

  /** One preference pass: the bucket's members of `preference`, in bucket
      order, then the rest in bucket order. */
  function Prefer(bucket: seq<string>, preference: seq<string>): (r: seq<string>)
    ensures multiset(r) == multiset(bucket)
    ensures forall i, j :: 0 <= i < j < |r| && r[j] in preference ==> r[i] in preference
  {
    FilterSplit(bucket, preference);
    var front := Filter(bucket, InPreference(preference));
    var back := Filter(bucket, NotInPreference(preference));
    assert forall j :: |front| <= j < |front| + |back| ==> (front + back)[j] == back[j - |front|];
    front + back
  }

  lemma {:induction false} FilterSplit(s: seq<string>, preference: seq<string>)
    ensures multiset(Filter(s, InPreference(preference))) + multiset(Filter(s, NotInPreference(preference))) == multiset(s)
  {
    if s != [] {
      FilterSplit(s[1..], preference);
      assert s == [s[0]] + s[1..];
    }
  }

  /** `for preference in reversed(prefer_from)`: the last list is applied
      first, so the first list decides the final order. */
  function ApplyPreferences(bucket: seq<string>, preferFrom: seq<seq<string>>): (r: seq<string>)
    ensures multiset(r) == multiset(bucket)
    ensures preferFrom != [] ==>
      forall i, j :: 0 <= i < j < |r| && r[j] in preferFrom[0] ==> r[i] in preferFrom[0]
  {
    if preferFrom == [] then bucket
    else Prefer(ApplyPreferences(bucket, preferFrom[1..]), preferFrom[0])
  }

  /** The index of the first preference list that names `t`, or the number
      of lists when none does. */
  function FirstList(t: string, preferFrom: seq<seq<string>>): (k: nat)
    ensures k <= |preferFrom|
    ensures k < |preferFrom| ==> t in preferFrom[k]
    ensures forall i :: 0 <= i < k ==> t !in preferFrom[i]
    decreases |preferFrom|
  {
    if preferFrom == [] then 0
    else if t in preferFrom[0] then 0
    else
      var k := FirstList(t, preferFrom[1..]);
      assert forall i :: 1 <= i <= k ==> preferFrom[i] == preferFrom[1..][i - 1];
      1 + k
  }

  function RankIn(preferFrom: seq<seq<string>>): string -> nat {
    t => FirstList(t, preferFrom)
  }

  function Unlisted(preferFrom: seq<seq<string>>): string -> bool {
    t => FirstList(t, preferFrom) == |preferFrom|
  }

  /** After all the passes, a term named by an earlier preference list
      comes before every term whose first list is a later one, and terms in
      no list come last. */
  lemma {:induction false} ApplyPreferencesRanked(bucket: seq<string>, preferFrom: seq<seq<string>>)
    ensures OrderedBy(ApplyPreferences(bucket, preferFrom), RankIn(preferFrom))
    decreases |preferFrom|
  {
    if preferFrom != [] {
      ApplyPreferencesRanked(bucket, preferFrom[1..]);
      PreferRanked(ApplyPreferences(bucket, preferFrom[1..]), preferFrom);
    }
  }

  /** The first pass puts the terms of the first list, all of rank 0, ahead
      of the rest, which keep the order of their ranks among the later
      lists. */
  lemma PreferRanked(s: seq<string>, preferFrom: seq<seq<string>>)
    requires preferFrom != [] && OrderedBy(s, RankIn(preferFrom[1..]))
    ensures OrderedBy(Prefer(s, preferFrom[0]), RankIn(preferFrom))
  {
    var tail := preferFrom[1..];
    var front := Filter(s, InPreference(preferFrom[0]));
    var back := Filter(s, NotInPreference(preferFrom[0]));
    FilterKeepsOrder(s, NotInPreference(preferFrom[0]), RankIn(tail));
    assert forall x :: x in front ==> FirstList(x, preferFrom) == 0;
    assert forall x :: x in back ==> FirstList(x, preferFrom) == 1 + FirstList(x, tail);
    assert OrderedBy(back, RankIn(preferFrom)) by {
      forall i, j | 0 <= i < j < |back|
        ensures FirstList(back[i], preferFrom) <= FirstList(back[j], preferFrom)
      {
        assert back[i] in back && back[j] in back;
        assert FirstList(back[i], tail) <= FirstList(back[j], tail);
      }
    }
    OrderedByConcat(front, back, RankIn(preferFrom));
  }

  /** Terms named by no preference list keep their order in the bucket. */
  lemma {:induction false} ApplyPreferencesStable(bucket: seq<string>, preferFrom: seq<seq<string>>)
    ensures Filter(ApplyPreferences(bucket, preferFrom), Unlisted(preferFrom)) == Filter(bucket, Unlisted(preferFrom))
    decreases |preferFrom|
  {
    if preferFrom != [] {
      var tail := preferFrom[1..];
      var u := Unlisted(preferFrom);
      ApplyPreferencesStable(bucket, tail);
      UnlistedStep(preferFrom);
      var before := ApplyPreferences(bucket, tail);
      PreferSkipsUnlisted(before, preferFrom[0], u);
      FilterFilter(before, Unlisted(tail), u);
      FilterFilter(bucket, Unlisted(tail), u);
    }
  }

  /** A term in no list is in no list after the first, and not in the first. */
  lemma UnlistedStep(preferFrom: seq<seq<string>>)
    requires preferFrom != []
    ensures forall x :: Unlisted(preferFrom)(x) ==> Unlisted(preferFrom[1..])(x) && x !in preferFrom[0]
  {
  }

  /** A preference pass leaves the terms outside its list in their order. */
  lemma PreferSkipsUnlisted(s: seq<string>, preference: seq<string>, u: string -> bool)
    requires forall x :: u(x) ==> x !in preference
    ensures Filter(Prefer(s, preference), u) == Filter(s, u)
  {
    var front := Filter(s, InPreference(preference));
    var back := Filter(s, NotInPreference(preference));
    FilterConcat(front, back, u);
    FilterNoneOf(front, u);
    assert forall x :: u(x) ==> NotInPreference(preference)(x);
    FilterFilter(s, NotInPreference(preference), u);
  }

  /** `list.remove(x)`: drop the first occurrence. */
  function RemoveFirst(s: seq<string>, x: string): seq<string> {
    if s == [] then []
    else if s[0] == x then s[1..]
    else [s[0]] + RemoveFirst(s[1..], x)
  }

  lemma {:induction false} RemoveFirstAfter(a: seq<string>, b: seq<string>, x: string)
    requires x !in a
    ensures RemoveFirst(a + [x] + b, x) == a + b
  {
    if a != [] {
      assert (a + [x] + b)[1..] == a[1..] + [x] + b;
      RemoveFirstAfter(a[1..], b, x);
      assert a == [a[0]] + a[1..];
    } else {
      assert a + [x] + b == [x] + b;
    }
  }

  lemma ReorderStep(bucket: seq<string>, preference: seq<string>, i: nat)
    requires i < |bucket|
    ensures var term := bucket[i];
      var kept := Filter(bucket[..i], NotInPreference(preference));
      && Filter(bucket[..i + 1], InPreference(preference))
         == Filter(bucket[..i], InPreference(preference)) + (if term in preference then [term] else [])
      && Filter(bucket[..i + 1], NotInPreference(preference)) + bucket[i + 1..]
         == (if term in preference then RemoveFirst(kept + bucket[i..], term) else kept + bucket[i..])
  {
    var term := bucket[i];
    assert bucket[..i + 1] == bucket[..i] + [term];
    FilterConcat(bucket[..i], [term], InPreference(preference));
    ReorderKeptStep(bucket, preference, i);
  }

  lemma ReorderKeptStep(bucket: seq<string>, preference: seq<string>, i: nat)
    requires i < |bucket|
    ensures var term := bucket[i];
      var kept := Filter(bucket[..i], NotInPreference(preference));
      Filter(bucket[..i + 1], NotInPreference(preference)) + bucket[i + 1..]
        == (if term in preference then RemoveFirst(kept + bucket[i..], term) else kept + bucket[i..])
  {
    var term, tail := bucket[i], bucket[i + 1..];
    var kept := Filter(bucket[..i], NotInPreference(preference));
    FilterSnoc(bucket, i, NotInPreference(preference));
    assert bucket[i..] == [term] + tail;
    assert kept + bucket[i..] == kept + [term] + tail;
    if term in preference {
      assert !NotInPreference(preference)(term);
      RemoveFirstAfter(kept, tail, term);
    }
  }

  /** One preference pass as the source writes it: `cp_order` starts as a
      copy, members are removed from it and appended to `new_order`, and the
      remainder goes last. */
  method ReorderBucket(bucket: seq<string>, preference: seq<string>) returns (newOrder: seq<string>)
    ensures newOrder == Prefer(bucket, preference)
  {
    var cpOrder := bucket;
    newOrder := [];
    var i := 0;
    while i < |bucket|
      invariant 0 <= i <= |bucket|
      invariant newOrder == Filter(bucket[..i], InPreference(preference))
      invariant cpOrder == Filter(bucket[..i], NotInPreference(preference)) + bucket[i..]
    {
      var term := bucket[i];
      ReorderStep(bucket, preference, i);
      if term in preference {
        cpOrder := RemoveFirst(cpOrder, term);
        newOrder := newOrder + [term];
      }
      i := i + 1;
    }
    assert bucket[..i] == bucket;
    newOrder := newOrder + cpOrder;
  }

  /** The buckets `matchterms` searches, from the vocabulary and the
      preference lists. */
  function BucketsFor(terms: seq<string>, preferFrom: seq<seq<string>>): (b: map<char, seq<string>>)
    requires forall t :: t in terms ==> t != []
    ensures NonEmptyTerms(b)
  {
    var unique := Dedup(terms);
    var b := map c | c in FirstChars(unique) :: PreparedBucket(unique, c, preferFrom);
    assert NonEmptyTerms(b) by {
      forall c | c in b {
        BucketElements(unique, c, preferFrom);
      }
    }
    b
  }

  /** The bucket of `c`: the terms starting with `c`, longest first, then
      reordered by the preference lists. */
  function PreparedBucket(unique: seq<string>, c: char, preferFrom: seq<seq<string>>): seq<string> {
    ApplyPreferences(SortByLenDesc(Filter(unique, FirstIs(c))), preferFrom)
  }

  /** A prepared bucket holds exactly the terms starting with its character. */
  lemma BucketElements(unique: seq<string>, c: char, preferFrom: seq<seq<string>>)
    ensures forall t :: t in PreparedBucket(unique, c, preferFrom) <==> t in unique && StartsWithChar(t, c)
  {
    var bucket := Filter(unique, FirstIs(c));
    var sorted := SortByLenDesc(bucket);
    SameElements(ApplyPreferences(sorted, preferFrom), sorted);
    SameElements(sorted, bucket);
  }

  /** The first characters of the non-empty terms. */
  function FirstChars(terms: seq<string>): set<char>
  {
    set t | t in terms && |t| > 0 :: t[0]
  }

  lemma SameElements(a: seq<string>, b: seq<string>)
    requires multiset(a) == multiset(b)
    ensures forall t :: t in a <==> t in b
  {
    forall t
      ensures t in a <==> t in b
    {
      assert t in a <==> t in multiset(a);
      assert t in b <==> t in multiset(b);
    }
  }

  /** A bucket holds exactly the distinct vocabulary terms starting with its
      character. */
  lemma BucketContents(terms: seq<string>, preferFrom: seq<seq<string>>, c: char)
    requires forall t :: t in terms ==> t != []
    ensures forall t :: t in Candidates(BucketsFor(terms, preferFrom), c) <==> t in terms && StartsWithChar(t, c)
  {
    var b := BucketsFor(terms, preferFrom);
    if c in b {
      BucketElements(Dedup(terms), c, preferFrom);
    }
  }


  /** `for index in termdict: termdict[index].sort(reverse=True, key=len)` */
  method SortBuckets(buckets: map<char, seq<string>>) returns (sorted: map<char, seq<string>>)
    ensures sorted.Keys == buckets.Keys
    ensures forall c :: c in sorted ==> sorted[c] == SortByLenDesc(buckets[c])
  {
    sorted := buckets;
    var todo := buckets.Keys;
    while todo != {}
      invariant todo <= buckets.Keys && sorted.Keys == buckets.Keys
      invariant forall c :: c in sorted ==> sorted[c] == if c in todo then buckets[c] else SortByLenDesc(buckets[c])
      decreases todo
    {
      var index :| index in todo;
      sorted := sorted[index := SortByLenDesc(buckets[index])];
      todo := todo - {index};
    }
  }

  /** `for preference in reversed(prefer_from)` over one bucket. */
  method ReorderByAll(bucket: seq<string>, preferFrom: seq<seq<string>>) returns (reordered: seq<string>)
    ensures reordered == ApplyPreferences(bucket, preferFrom)
  {
    var k := |preferFrom|;
    reordered := bucket;
    while k > 0
      invariant 0 <= k <= |preferFrom|
      invariant reordered == ApplyPreferences(bucket, preferFrom[k..])
    {
      k := k - 1;
      assert preferFrom[k..][1..] == preferFrom[k + 1..];
      reordered := ReorderBucket(reordered, preferFrom[k]);
    }
  }

  /** The `if prefer_from:` block: every bucket goes through the preference
      lists from the last to the first. */
  method PreferBuckets(buckets: map<char, seq<string>>, preferFrom: seq<seq<string>>)
    returns (preferred: map<char, seq<string>>)
    ensures preferred.Keys == buckets.Keys
    ensures forall c :: c in preferred ==> preferred[c] == ApplyPreferences(buckets[c], preferFrom)
  {
    preferred := buckets;
    var todo := buckets.Keys;
    while todo != {}
      invariant todo <= buckets.Keys && preferred.Keys == buckets.Keys
      invariant forall c :: c in preferred ==>
        preferred[c] == if c in todo then buckets[c] else ApplyPreferences(buckets[c], preferFrom)
      decreases todo
    {
      var index :| index in todo;
      var bucket := ReorderByAll(buckets[index], preferFrom);
      preferred := preferred[index := bucket];
      todo := todo - {index};
    }
  }

  // ---------------------------------------------------------------------
  // The scan of `matchterms`.

  ghost predicate NonEmptyTerms(buckets: map<char, seq<string>>) {
    forall c, t :: c in buckets && t in buckets[c] ==> t != []
  }

  /** `text.startswith(prefix)` */
  predicate StartsWith(text: string, prefix: string) {
    |prefix| <= |text| && text[..|prefix|] == prefix
  }

  /** The `for match in candidates` search from position `k` on: the index
      of the first candidate that `rest` starts with. */
  function FirstMatch(cands: seq<string>, rest: string, k: nat): (r: Option<nat>)
    requires k <= |cands|
    ensures r.Some? ==> k <= r.value < |cands| && StartsWith(rest, cands[r.value])
    ensures r.Some? ==> forall m :: k <= m < r.value ==> !StartsWith(rest, cands[m])
    ensures r.None? ==> forall m :: k <= m < |cands| ==> !StartsWith(rest, cands[m])
    decreases |cands| - k
  {
    if k == |cands| then None
    else if StartsWith(rest, cands[k]) then Some(k)
    else FirstMatch(cands, rest, k + 1)
  }

  /** The candidate the search settles on, if any. */
  function Choose(cands: seq<string>, rest: string): (r: Option<string>)
    ensures r.Some? ==> r.value in cands && StartsWith(rest, r.value)
    ensures r.None? <==> forall t :: t in cands ==> !StartsWith(rest, t)
  {
    match FirstMatch(cands, rest, 0)
    case None => None
    case Some(k) => Some(cands[k])
  }

  /** In a bucket ordered longest first the first prefix is the longest one. */
  lemma ChooseLongest(cands: seq<string>, rest: string)
    requires forall i, j :: 0 <= i < j < |cands| ==> |cands[i]| >= |cands[j]|
    ensures Choose(cands, rest).Some? ==>
      forall t :: t in cands && StartsWith(rest, t) ==> |t| <= |Choose(cands, rest).value|
  {
    var r := FirstMatch(cands, rest, 0);
    if r.Some? {
      forall t | t in cands && StartsWith(rest, t)
        ensures |t| <= |cands[r.value]|
      {
        var m :| 0 <= m < |cands| && cands[m] == t;
      }
    }
  }

  /** A match: `term` consumed at position `pos` of the sequence. */
  datatype Hit = Hit(pos: nat, term: string)

  /** The matches the scan makes from position `i` on: at each position the
      chosen candidate is consumed, and a position without one is skipped. */
  function Scan(s: string, i: nat, buckets: map<char, seq<string>>): seq<Hit>
    requires i <= |s| && NonEmptyTerms(buckets)
    decreases |s| - i
  {
    if i == |s| then []
    else
      match Choose(Candidates(buckets, s[i]), s[i..])
      case None => Scan(s, i + 1, buckets)
      case Some(t) => [Hit(i, t)] + Scan(s, i + |t|, buckets)
  }

  /** `h.term` occurs at `h.pos` and is the candidate the search chooses there. */
  predicate ChosenAt(s: string, buckets: map<char, seq<string>>, h: Hit) {
    && h.pos < |s|
    && h.pos + |h.term| <= |s|
    && s[h.pos..h.pos + |h.term|] == h.term
    && Choose(Candidates(buckets, s[h.pos]), s[h.pos..]) == Some(h.term)
  }

  /** Every hit lies at or after `i` and is the candidate chosen there. */
  predicate AllChosen(s: string, buckets: map<char, seq<string>>, i: nat, hits: seq<Hit>) {
    forall k :: 0 <= k < |hits| ==> i <= hits[k].pos && ChosenAt(s, buckets, hits[k])
  }

  /** Each hit ends before the next one starts. */
  predicate Disjoint(hits: seq<Hit>) {
    forall k :: 0 <= k < |hits| - 1 ==> hits[k].pos + |hits[k].term| <= hits[k + 1].pos
  }

  /** Every hit is the candidate chosen at its position, and hits are
      non-overlapping and in input order. */
  lemma {:induction false} ScanHits(s: string, i: nat, buckets: map<char, seq<string>>)
    requires i <= |s| && NonEmptyTerms(buckets)
    ensures AllChosen(s, buckets, i, Scan(s, i, buckets))
    ensures Disjoint(Scan(s, i, buckets))
    decreases |s| - i
  {
    if i < |s| {
      var hits := Scan(s, i, buckets);
      match Choose(Candidates(buckets, s[i]), s[i..])
      case None =>
        ScanHits(s, i + 1, buckets);
        assert hits == Scan(s, i + 1, buckets);
      case Some(t) =>
        var rest := Scan(s, i + |t|, buckets);
        ScanHits(s, i + |t|, buckets);
        ChosenHere(s, buckets, i, t);
        ConsHits(s, buckets, Hit(i, t), rest);
        assert hits == [Hit(i, t)] + rest;
    }
  }

  /** The candidate chosen at `i` is a hit at `i`. */
  lemma ChosenHere(s: string, buckets: map<char, seq<string>>, i: nat, t: string)
    requires i < |s| && NonEmptyTerms(buckets)
    requires Choose(Candidates(buckets, s[i]), s[i..]) == Some(t)
    ensures ChosenAt(s, buckets, Hit(i, t))
  {
    assert s[i..][..|t|] == s[i..i + |t|];
  }

  /** A chosen hit in front of the later hits keeps both properties. */
  lemma ConsHits(s: string, buckets: map<char, seq<string>>, h: Hit, rest: seq<Hit>)
    requires ChosenAt(s, buckets, h)
    requires AllChosen(s, buckets, h.pos + |h.term|, rest) && Disjoint(rest)
    ensures AllChosen(s, buckets, h.pos, [h] + rest) && Disjoint([h] + rest)
  {
    var hits := [h] + rest;
    forall k | 1 <= k < |hits|
      ensures hits[k] == rest[k - 1]
    {
    }
  }

  /** The terms of the hits that are not stopwords, in order. */
  function Emit(hits: seq<Hit>, stopwords: seq<string>): seq<string>
  {
    if hits == [] then []
    else (if hits[0].term in stopwords then [] else [hits[0].term]) + Emit(hits[1..], stopwords)
  }

  /** Stopwords are consumed but never emitted; every emitted term is the
      term of some hit. */
  lemma {:induction false} EmitTerms(hits: seq<Hit>, stopwords: seq<string>)
    ensures forall t :: t in Emit(hits, stopwords) ==>
      t !in stopwords && exists k :: 0 <= k < |hits| && hits[k].term == t
  {
    if hits != [] {
      EmitTerms(hits[1..], stopwords);
      forall t | t in Emit(hits[1..], stopwords)
        ensures exists k :: 0 <= k < |hits| && hits[k].term == t
      {
        var k :| 0 <= k < |hits[1..]| && hits[1..][k].term == t;
        assert hits[k + 1].term == t;
      }
    }
  }

  /** What `matchterms(sequence, terms, stopwords, prefer_from)` returns. */
  function Splits(sequence: string, terms: seq<string>, stopwords: seq<string>, preferFrom: seq<seq<string>>): seq<string>
    requires forall t :: t in terms ==> t != []
  {
    Emit(Scan(sequence, 0, BucketsFor(terms, preferFrom)), stopwords)
  }

  /** `list(reversed(s))` */
  function Reversed(s: string): (r: string)
    ensures |r| == |s|
    ensures forall k :: 0 <= k < |s| ==> r[k] == s[|s| - 1 - k]
  {
    if s == [] then [] else Reversed(s[1..]) + [s[0]]
  }

  /** Dropping `n` characters from the front of a string drops `n` from the
      back of its reverse. */
  lemma {:induction false} ReversedDrop(s: string, n: nat)
    requires n <= |s|
    ensures Reversed(s)[..|s| - n] == Reversed(s[n..])
  {
    if n > 0 {
      ReversedDrop(s[1..], n - 1);
      assert s[1..][n - 1..] == s[n..];
      assert Reversed(s) == Reversed(s[1..]) + [s[0]];
    }
  }

  /** The bucket preparation of `matchterms`: `set(terms)` grouped by first
      character, each bucket sorted longest first and then reordered by the
      preference lists. */
  method PrepareBuckets(terms: seq<string>, preferFrom: seq<seq<string>>) returns (termdict: map<char, seq<string>>)
    requires forall t :: t in terms ==> t != []
    ensures termdict == BucketsFor(terms, preferFrom)
  {
    var unique := UniqTerms(terms);
    var grouped := BuildBuckets(unique);
    termdict := SortBuckets(grouped);
    if preferFrom != [] {
      termdict := PreferBuckets(termdict, preferFrom);
    }
    assert forall c :: c in termdict ==> termdict[c] == ApplyPreferences(SortByLenDesc(grouped[c]), preferFrom);
    BucketsForIs(terms, preferFrom, grouped, termdict);
  }

  lemma BucketsForIs(terms: seq<string>, preferFrom: seq<seq<string>>, grouped: map<char, seq<string>>, r: map<char, seq<string>>)
    requires forall t :: t in terms ==> t != []
    requires GroupedBy(grouped, Dedup(terms))
    requires r.Keys == grouped.Keys
    requires forall c :: c in r ==> r[c] == ApplyPreferences(SortByLenDesc(grouped[c]), preferFrom)
    ensures r == BucketsFor(terms, preferFrom)
  {
  }

  /** A position without a chosen candidate is skipped. */
  lemma ScanSkip(s: string, i: nat, buckets: map<char, seq<string>>, stopwords: seq<string>)
    requires i < |s| && NonEmptyTerms(buckets)
    requires Choose(Candidates(buckets, s[i]), s[i..]) == None
    ensures Emit(Scan(s, i, buckets), stopwords) == Emit(Scan(s, i + 1, buckets), stopwords)
  {
  }

  /** A chosen candidate is consumed, and emitted unless it is a stopword. */
  lemma ScanTake(s: string, i: nat, buckets: map<char, seq<string>>, stopwords: seq<string>, t: string)
    requires i < |s| && NonEmptyTerms(buckets)
    requires Choose(Candidates(buckets, s[i]), s[i..]) == Some(t)
    ensures i + |t| <= |s|
    ensures Emit(Scan(s, i, buckets), stopwords)
      == (if t in stopwords then [] else [t]) + Emit(Scan(s, i + |t|, buckets), stopwords)
  {
    var hits := Scan(s, i, buckets);
    assert hits[0] == Hit(i, t);
    assert hits[1..] == Scan(s, i + |t|, buckets);
  }

  /** `matchterms`: build the buckets, then scan `cp_sequence` while keeping
      `sequence_que` as its reverse, whose last element is the next
      character. */
  method MatchTerms(sequence: string, terms: seq<string>, stopwords: seq<string>, preferFrom: seq<seq<string>>)
    returns (splits: seq<string>)
    requires forall t :: t in terms ==> t != []
    ensures splits == Splits(sequence, terms, stopwords, preferFrom)
  {
    var termdict := PrepareBuckets(terms, preferFrom);
    splits := ScanSequence(sequence, termdict, stopwords);
  }

  /** The `while cp_sequence` loop of `matchterms`. */
  method ScanSequence(sequence: string, termdict: map<char, seq<string>>, stopwords: seq<string>)
    returns (splits: seq<string>)
    requires NonEmptyTerms(termdict)
    ensures splits == Emit(Scan(sequence, 0, termdict), stopwords)
  {
    var cpSequence := sequence;
    var sequenceQue := Reversed(sequence);
    splits := [];
    ghost var i: nat := 0;
    while cpSequence != []
      invariant i <= |sequence| && cpSequence == sequence[i..]
      invariant sequenceQue == Reversed(cpSequence)
      invariant splits + Emit(Scan(sequence, i, termdict), stopwords) == Emit(Scan(sequence, 0, termdict), stopwords)
      decreases |cpSequence|
    {
      var emitted;
      ghost var step;
      emitted, cpSequence, sequenceQue, step := ScanOnce(sequence, termdict, stopwords, i, cpSequence, sequenceQue);
      AppendAssoc(splits, emitted, Emit(Scan(sequence, i + step, termdict), stopwords));
      splits := splits + emitted;
      i := i + step;
    }
  }

  /** One pass of the `while cp_sequence` loop: look up the bucket of the
      next character (the last of `sequence_que`), take the first candidate
      the text starts with, or drop one character. */
  method ScanOnce(sequence: string, termdict: map<char, seq<string>>, stopwords: seq<string>, ghost i: nat,
                  cpSequence: string, sequenceQue: string)
    returns (emitted: seq<string>, cpNext: string, queNext: string, ghost step: nat)
    requires NonEmptyTerms(termdict)
    requires i < |sequence| && cpSequence == sequence[i..] && sequenceQue == Reversed(cpSequence)
    ensures 0 < step && i + step <= |sequence|
    ensures cpNext == sequence[i + step..] && queNext == Reversed(cpNext)
    ensures Emit(Scan(sequence, i, termdict), stopwords) == emitted + Emit(Scan(sequence, i + step, termdict), stopwords)
  {
    ReversedLast(cpSequence);
    var candidates := Candidates(termdict, sequenceQue[|sequenceQue| - 1]);
    var k := |candidates|;
    if candidates != [] {
      k := FindCandidate(candidates, cpSequence);
    } else {
      NoCandidates(cpSequence);
    }
    step := ScanStep(sequence, i, termdict, stopwords, candidates, k);
    emitted := [];
    if k == |candidates| {
      queNext := sequenceQue[..|sequenceQue| - 1];
      cpNext := cpSequence[1..];
    } else {
      var found := candidates[k];
      if found !in stopwords {
        emitted := [found];
      }
      cpNext := cpSequence[|found|..];
      queNext := sequenceQue[..|sequenceQue| - |found|];
    }
  }

  lemma AppendAssoc(a: seq<string>, b: seq<string>, c: seq<string>)
    ensures (a + b) + c == a + (b + c)
  {
  }

  lemma NoCandidates(text: string)
    ensures FirstMatch([], text, 0) == None
  {
  }

  /** One iteration of the scan: how far it advances and what it emits. */
  lemma ScanStep(s: string, i: nat, buckets: map<char, seq<string>>, stopwords: seq<string>, candidates: seq<string>, k: nat)
    returns (step: nat)
    requires i < |s| && NonEmptyTerms(buckets)
    requires candidates == Candidates(buckets, s[i]) && k <= |candidates|
    requires FirstMatch(candidates, s[i..], 0) == if k == |candidates| then None else Some(k)
    ensures step == if k == |candidates| then 1 else |candidates[k]|
    ensures 0 < step && i + step <= |s|
    ensures s[i..][step..] == s[i + step..]
    ensures Reversed(s[i..])[..|s| - i - step] == Reversed(s[i + step..])
    ensures Emit(Scan(s, i, buckets), stopwords)
      == (if k == |candidates| || candidates[k] in stopwords then [] else [candidates[k]])
         + Emit(Scan(s, i + step, buckets), stopwords)
  {
    if k == |candidates| {
      step := 1;
      assert Choose(candidates, s[i..]) == None;
      ScanSkip(s, i, buckets, stopwords);
    } else {
      step := |candidates[k]|;
      assert Choose(candidates, s[i..]) == Some(candidates[k]);
      ScanTake(s, i, buckets, stopwords, candidates[k]);
    }
    DropStep(s, i, step);
  }

  /** Advancing `cp_sequence` and shortening `sequence_que` by the same step. */
  lemma DropStep(s: string, i: nat, step: nat)
    requires i + step <= |s|
    ensures s[i..][step..] == s[i + step..]
    ensures Reversed(s[i..])[..|s| - i - step] == Reversed(s[i + step..])
  {
    ReversedDrop(s[i..], step);
  }

  /** The `for match in candidates ... else` search: the index of the first
      candidate the text starts with, or the number of candidates. */
  method FindCandidate(candidates: seq<string>, text: string) returns (k: nat)
    ensures k <= |candidates|
    ensures FirstMatch(candidates, text, 0) == if k == |candidates| then None else Some(k)
  {
    k := 0;
    while k < |candidates| && !StartsWith(text, candidates[k])
      invariant 0 <= k <= |candidates|
      invariant FirstMatch(candidates, text, k) == FirstMatch(candidates, text, 0)
    {
      k := k + 1;
    }
  }

  lemma ReversedLast(s: string)
    requires s != []
    ensures Reversed(s)[|s| - 1] == s[0]
  {
  }

  // ---------------------------------------------------------------------
  // What the scan promises.

  /** Every emitted token is a vocabulary term and not a stopword, and an
      empty sequence yields no token. */
  lemma SplitsAreTerms(sequence: string, terms: seq<string>, stopwords: seq<string>, preferFrom: seq<seq<string>>)
    requires forall t :: t in terms ==> t != []
    ensures forall t :: t in Splits(sequence, terms, stopwords, preferFrom) ==> t in terms && t !in stopwords
    ensures sequence == [] ==> Splits(sequence, terms, stopwords, preferFrom) == []
  {
    var buckets := BucketsFor(terms, preferFrom);
    var hits := Scan(sequence, 0, buckets);
    ScanHits(sequence, 0, buckets);
    EmitTerms(hits, stopwords);
    forall t | t in Splits(sequence, terms, stopwords, preferFrom)
      ensures t in terms
    {
      var k :| 0 <= k < |hits| && hits[k].term == t;
      assert ChosenAt(sequence, buckets, hits[k]);
      BucketContents(terms, preferFrom, sequence[hits[k].pos]);
    }
  }

  /** Without preference lists each match is the longest vocabulary term
      that the remaining input starts with. */
  lemma MatchIsLongest(sequence: string, terms: seq<string>, h: Hit, u: string)
    requires forall t :: t in terms ==> t != []
    requires h in Scan(sequence, 0, BucketsFor(terms, []))
    requires u in terms && h.pos + |u| <= |sequence| && sequence[h.pos..h.pos + |u|] == u
    ensures |u| <= |h.term|
  {
    var buckets := BucketsFor(terms, []);
    PrefixOfRest(sequence, h.pos, u);
    BucketContents(terms, [], sequence[h.pos]);
    BucketSorted(terms, sequence[h.pos]);
    LongestAtHit(sequence, buckets, h, u);
  }

  lemma LongestAtHit(s: string, buckets: map<char, seq<string>>, h: Hit, u: string)
    requires NonEmptyTerms(buckets) && h in Scan(s, 0, buckets)
    requires h.pos < |s|
    requires var b := Candidates(buckets, s[h.pos]);
      forall i, j :: 0 <= i < j < |b| ==> |b[i]| >= |b[j]|
    requires u in Candidates(buckets, s[h.pos]) && StartsWith(s[h.pos..], u)
    ensures |u| <= |h.term|
  {
    HitIsChosen(s, buckets, h);
    ChooseLongest(Candidates(buckets, s[h.pos]), s[h.pos..]);
  }

  /** Without preference lists a bucket is ordered longest first. */
  lemma BucketSorted(terms: seq<string>, c: char)
    requires forall t :: t in terms ==> t != []
    ensures var b := Candidates(BucketsFor(terms, []), c);
      forall i, j :: 0 <= i < j < |b| ==> |b[i]| >= |b[j]|
  {
  }

  lemma PrefixOfRest(s: string, p: nat, u: string)
    requires p + |u| <= |s| && s[p..p + |u|] == u && u != []
    ensures p < |s| && StartsWith(s[p..], u) && StartsWithChar(u, s[p])
  {
    assert s[p..][..|u|] == s[p..p + |u|];
    assert u[0] == s[p..p + |u|][0];
  }

  lemma HitIsChosen(s: string, buckets: map<char, seq<string>>, h: Hit)
    requires NonEmptyTerms(buckets) && h in Scan(s, 0, buckets)
    ensures ChosenAt(s, buckets, h)
  {
    ScanHits(s, 0, buckets);
    var hits := Scan(s, 0, buckets);
    var k :| 0 <= k < |hits| && hits[k] == h;
    assert ChosenAt(s, buckets, hits[k]);
  }

  /** Every position where some vocabulary term starts lies inside a match:
      a position is only skipped when no term matches there. */
  lemma {:induction false} ScanCovers(s: string, i: nat, buckets: map<char, seq<string>>, p: nat)
    requires NonEmptyTerms(buckets)
    requires i <= p < |s|
    requires Choose(Candidates(buckets, s[p]), s[p..]).Some?
    ensures Covers(Scan(s, i, buckets), p)
    decreases |s| - i
  {
    var hits := Scan(s, i, buckets);
    match Choose(Candidates(buckets, s[i]), s[i..])
    case None =>
      assert p != i;
      ScanCovers(s, i + 1, buckets, p);
      assert hits == Scan(s, i + 1, buckets);
    case Some(t) =>
      var rest := Scan(s, i + |t|, buckets);
      assert hits == [Hit(i, t)] + rest;
      if p >= i + |t| {
        ScanCovers(s, i + |t|, buckets, p);
        var k :| 0 <= k < |rest| && Inside(rest[k], p);
        assert hits[k + 1] == rest[k];
      } else {
        assert Inside(hits[0], p);
      }
  }

  /** Position `p` lies within the text matched by `h`. */
  predicate Inside(h: Hit, p: nat) {
    h.pos <= p < h.pos + |h.term|
  }

  /** Some hit of `hits` spans position `p`. */
  predicate Covers(hits: seq<Hit>, p: nat) {
    exists k :: 0 <= k < |hits| && Inside(hits[k], p)
  }

  /** `matchterms` never passes over a vocabulary term: a position where one
      starts is covered by an emitted or consumed match. */
  lemma NoTermMissed(sequence: string, terms: seq<string>, preferFrom: seq<seq<string>>, p: nat, u: string)
    requires forall t :: t in terms ==> t != []
    requires u in terms && p + |u| <= |sequence| && sequence[p..p + |u|] == u
    ensures exists h :: h in Scan(sequence, 0, BucketsFor(terms, preferFrom)) && h.pos <= p < h.pos + |h.term|
  {
    var buckets := BucketsFor(terms, preferFrom);
    PrefixOfRest(sequence, p, u);
    var c := sequence[p];
    BucketContents(terms, preferFrom, c);
    assert u in Candidates(buckets, c);
    ScanCovers(sequence, 0, buckets, p);
    var hits := Scan(sequence, 0, buckets);
    var k :| 0 <= k < |hits| && Inside(hits[k], p);
    assert hits[k] in hits;
  }

  // ---------------------------------------------------------------------
  // `termfind_func`

  /** What `termfind_func(terms, stopwords, prefer_from)(sentences)` returns:
      the matches of every sentence, one sentence after the other. */
  function FindAll(sentences: seq<string>, terms: seq<string>, stopwords: seq<string>, preferFrom: seq<seq<string>>): seq<string>
    requires forall t :: t in terms ==> t != []
  {
    if sentences == [] then []
    else
      var n := |sentences| - 1;
      FindAll(sentences[..n], terms, stopwords, preferFrom) + Splits(sentences[n], terms, stopwords, preferFrom)
  }

  /** `_termfind`: `terms.extend(matchterms(sent, ...))` for each sentence. */
  method TermFind(sentences: seq<string>, termsToMatch: seq<string>, stopwords: seq<string>, preferFrom: seq<seq<string>>)
    returns (found: seq<string>)
    requires forall t :: t in termsToMatch ==> t != []
    ensures found == FindAll(sentences, termsToMatch, stopwords, preferFrom)
  {
    found := [];
    var i := 0;
    while i < |sentences|
      invariant 0 <= i <= |sentences|
      invariant found == FindAll(sentences[..i], termsToMatch, stopwords, preferFrom)
    {
      var matched := MatchTerms(sentences[i], termsToMatch, stopwords, preferFrom);
      assert sentences[..i + 1][..i] == sentences[..i];
      found := found + matched;
      i := i + 1;
    }
    assert sentences[..i] == sentences;
  }

  /** Everything `_termfind` reports is a vocabulary term and not a stopword. */
  lemma {:induction false} FindAllTerms(sentences: seq<string>, terms: seq<string>, stopwords: seq<string>, preferFrom: seq<seq<string>>)
    requires forall t :: t in terms ==> t != []
    ensures forall t :: t in FindAll(sentences, terms, stopwords, preferFrom) ==> t in terms && t !in stopwords
  {
    if sentences != [] {
      var n := |sentences| - 1;
      FindAllTerms(sentences[..n], terms, stopwords, preferFrom);
      SplitsAreTerms(sentences[n], terms, stopwords, preferFrom);
    }
  }
}
