/** Failure-carrying results shared by every module of the model. A Python
    exception that a caller can observe becomes an `Err` value. */
module Common {

  datatype Option<+T> = None | Some(value: T)

  datatype Result<+T, +E> = Ok(value: T) | Err(error: E)

  /** Number of occurrences of `x` in `s`. */
  function Count<T(==)>(s: seq<T>, x: T): (n: nat)
    ensures n == multiset(s)[x]
    ensures n <= |s|
    ensures n > 0 <==> x in s
  {
    if s == [] then 0
    else
      assert s == [s[0]] + s[1..];
      (if s[0] == x then 1 else 0) + Count(s[1..], x)
  }

  /** The elements of `s` that satisfy `p`, in their original order
      (a Python list comprehension with a condition). */
  function Filter<T(==,!new)>(s: seq<T>, p: T -> bool): (r: seq<T>)
    ensures |r| <= |s|
    ensures forall x :: x in r <==> x in s && p(x)
    ensures forall i :: 0 <= i < |r| ==> p(r[i])
  {
    if s == [] then []
    else if p(s[0]) then [s[0]] + Filter(s[1..], p)
    else Filter(s[1..], p)
  }

  lemma {:induction false} FilterConcat<T(!new)>(a: seq<T>, b: seq<T>, p: T -> bool)
    ensures Filter(a + b, p) == Filter(a, p) + Filter(b, p)
  {
    if a == [] {
      assert a + b == b;
    } else {
      assert (a + b)[1..] == a[1..] + b;
      FilterConcat(a[1..], b, p);
    }
  }

  /** Filtering a prefix one element longer. */
  lemma FilterSnoc<T(!new)>(s: seq<T>, i: nat, p: T -> bool)
    requires i < |s|
    ensures Filter(s[..i + 1], p) == Filter(s[..i], p) + if p(s[i]) then [s[i]] else []
  {
    assert s[..i + 1] == s[..i] + [s[i]];
    FilterConcat(s[..i], [s[i]], p);
  }

  /** Filtering keeps a list whose elements all pass unchanged. */
  lemma {:induction false} FilterAll<T(!new)>(s: seq<T>, p: T -> bool)
    requires forall x :: x in s ==> p(x)
    ensures Filter(s, p) == s
  {
    if s != [] {
      FilterAll(s[1..], p);
      assert s == [s[0]] + s[1..];
    }
  }

  /** The keys of the elements of `s` never decrease. */
  predicate OrderedBy<T>(s: seq<T>, key: T -> nat) {
    forall i, j :: 0 <= i < j < |s| ==> key(s[i]) <= key(s[j])
  }

  /** Filtering keeps a list ordered by a key ordered. */
  lemma {:induction false} FilterKeepsOrder<T(!new)>(s: seq<T>, p: T -> bool, key: T -> nat)
    requires OrderedBy(s, key)
    ensures OrderedBy(Filter(s, p), key)
  {
    if s != [] {
      OrderedRest(s, key);
      FilterKeepsOrder(s[1..], p, key);
      if p(s[0]) {
        OrderedByConcat([s[0]], Filter(s[1..], p), key);
      }
    }
  }

  /** The tail of an ordered list is ordered, and no key in it is smaller
      than the head's. */
  lemma OrderedRest<T>(s: seq<T>, key: T -> nat)
    requires s != [] && OrderedBy(s, key)
    ensures OrderedBy(s[1..], key)
    ensures forall y :: y in s[1..] ==> key(s[0]) <= key(y)
  {
    forall i, j | 0 <= i < j < |s[1..]|
      ensures key(s[1..][i]) <= key(s[1..][j])
    {
      assert s[1..][i] == s[i + 1] && s[1..][j] == s[j + 1];
    }
    forall y | y in s[1..]
      ensures key(s[0]) <= key(y)
    {
      var j :| 0 <= j < |s[1..]| && s[1..][j] == y;
      assert s[j + 1] == y;
    }
  }

  /** Filtering drops a list none of whose elements pass. */
  lemma {:induction false} FilterNoneOf<T(!new)>(s: seq<T>, p: T -> bool)
    requires forall x :: x in s ==> !p(x)
    ensures Filter(s, p) == []
  {
    if s != [] {
      FilterNoneOf(s[1..], p);
    }
  }

  /** Two ordered lists, every key of the first no larger than every key of
      the second, make an ordered list. */
  lemma OrderedByConcat<T>(a: seq<T>, b: seq<T>, key: T -> nat)
    requires OrderedBy(a, key) && OrderedBy(b, key)
    requires forall x, y :: x in a && y in b ==> key(x) <= key(y)
    ensures OrderedBy(a + b, key)
  {
    var r := a + b;
    forall i, j | 0 <= i < j < |r|
      ensures key(r[i]) <= key(r[j])
    {
      if j < |a| {
        assert r[i] == a[i] && r[j] == a[j];
      } else if i >= |a| {
        assert r[i] == b[i - |a|] && r[j] == b[j - |a|];
      } else {
        assert r[i] == a[i] && r[j] == b[j - |a|];
      }
    }
  }

  /** Filtering by `p` and then by a stricter `q` is filtering by `q`. */
  lemma {:induction false} FilterFilter<T(!new)>(s: seq<T>, p: T -> bool, q: T -> bool)
    requires forall x :: q(x) ==> p(x)
    ensures Filter(Filter(s, p), q) == Filter(s, q)
  {
    if s != [] {
      FilterFilter(s[1..], p, q);
      if p(s[0]) {
        assert ([s[0]] + Filter(s[1..], p))[1..] == Filter(s[1..], p);
      }
    }
  }

  /** The prefix one element longer. */
  lemma TakeStep<T>(s: seq<T>, i: nat)
    requires i < |s|
    ensures s[..i + 1] == s[..i] + [s[i]]
  {
  }
}
