/** The Python 2 `unicode` built-ins the modelled code relies on: `isspace`,
    `strip()`, `split()`, `split(sep)`, `join` and `lower()`. */
module PyStr {

  /** `c.isspace()` for a Python 2.7 unicode character (Unicode 5.2 tables). */
  predicate IsSpace(c: char) {
    var n := c as int;
    (0x09 <= n <= 0x0D) || (0x1C <= n <= 0x20) || n == 0x85 || n == 0xA0 ||
    n == 0x1680 || n == 0x180E || (0x2000 <= n <= 0x200A) || n == 0x2028 ||
    n == 0x2029 || n == 0x202F || n == 0x205F || n == 0x3000
  }

  predicate NoSpace(s: string) {
    forall k :: 0 <= k < |s| ==> !IsSpace(s[k])
  }

  /** First index at or after `from` that is not whitespace (|s| if none). */
  function SkipSpace(s: string, from: nat): (i: nat)
    requires from <= |s|
    ensures from <= i <= |s|
    ensures forall k :: from <= k < i ==> IsSpace(s[k])
    ensures i < |s| ==> !IsSpace(s[i])
    decreases |s| - from
  {
    if from == |s| || !IsSpace(s[from]) then from else SkipSpace(s, from + 1)
  }

  /** First index at or after `from` that is whitespace (|s| if none). */
  function SkipWord(s: string, from: nat): (i: nat)
    requires from <= |s|
    ensures from <= i <= |s|
    ensures forall k :: from <= k < i ==> !IsSpace(s[k])
    ensures i < |s| ==> IsSpace(s[i])
    decreases |s| - from
  {
    if from == |s| || IsSpace(s[from]) then from else SkipWord(s, from + 1)
  }

  /** Largest end `j <= to` such that the text before `j` does not end in whitespace. */
  function TrimEnd(s: string, upTo: nat): (j: nat)
    requires upTo <= |s|
    ensures j <= upTo
    ensures forall k :: j <= k < upTo ==> IsSpace(s[k])
    ensures j > 0 ==> !IsSpace(s[j - 1])
    decreases upTo
  {
    if upTo == 0 || !IsSpace(s[upTo - 1]) then upTo else TrimEnd(s, upTo - 1)
  }

  /** `s.strip()`: the bounds of `s` without its leading and trailing whitespace. */
  function StripBounds(s: string): (b: (nat, nat))
    ensures b.0 <= b.1 <= |s|
    ensures forall k :: 0 <= k < b.0 ==> IsSpace(s[k])
    ensures forall k :: b.1 <= k < |s| ==> IsSpace(s[k])
    ensures b.0 < b.1 ==> !IsSpace(s[b.0]) && !IsSpace(s[b.1 - 1])
    ensures b.0 == b.1 ==> b == (0, 0) || b == (|s|, |s|)
  {
    var i := SkipSpace(s, 0);
    if i == |s| then (|s|, |s|)
    else
      var j := TrimEnd(s, |s|);
      assert !IsSpace(s[i]);
      assert j > i;
      (i, j)
  }

  function Strip(s: string): (r: string)
    ensures |r| <= |s|
    ensures r == [] <==> forall k :: 0 <= k < |s| ==> IsSpace(s[k])
    ensures r != [] ==> !IsSpace(r[0]) && !IsSpace(r[|r| - 1])
    ensures NoSpace(s) ==> r == s
  {
    var b := StripBounds(s);
    assert NoSpace(s) && s != [] ==> b == (0, |s|);
    s[b.0..b.1]
  }

  /** `s.split()`: the maximal runs of non-whitespace characters, in order. */
  function Words(s: string): (ws: seq<string>)
    ensures forall w :: w in ws ==> w != [] && NoSpace(w)
  {
    WordsFrom(s, 0)
  }

  /** The words of `s[from..]`. */
  function WordsFrom(s: string, from: nat): (ws: seq<string>)
    requires from <= |s|
    ensures forall w :: w in ws ==> w != [] && NoSpace(w)
    decreases |s| - from
  {
    var i := SkipSpace(s, from);
    if i == |s| then []
    else
      var j := SkipWord(s, i);
      [s[i..j]] + WordsFrom(s, j)
  }

  /** `sep.join(parts)`. */
  function Join(sep: string, parts: seq<string>): (r: string)
    ensures parts == [] ==> r == []
  {
    if parts == [] then []
    else if |parts| == 1 then parts[0]
    else parts[0] + sep + Join(sep, parts[1..])
  }

  /** `w` occurs in `s` starting at index `k`. */
  predicate OccursAt(s: string, w: string, k: int) {
    0 <= k <= |s| - |w| && s[k..k + |w|] == w
  }

  /** `w in s`: `w` occurs in `s` as a substring. */
  predicate Contains(s: string, w: string) {
    exists k :: 0 <= k <= |s| && OccursAt(s, w, k)
  }

  lemma ContainsSelf(w: string)
    ensures Contains(w, w)
  {
    assert OccursAt(w, w, 0);
  }

  /** A text occurring in the middle piece occurs in the whole. */
  lemma ContainsWithin(a: string, b: string, c: string, w: string)
    requires Contains(b, w)
    ensures Contains(a + b + c, w)
  {
    var k :| 0 <= k <= |b| && OccursAt(b, w, k);
    assert 0 <= k <= |b| - |w| && b[k..k + |w|] == w;
    assert (a + b + c)[|a| + k..|a| + k + |w|] == b[k..k + |w|];
    assert OccursAt(a + b + c, w, |a| + k);
  }

  /** Every part of a join occurs in the joined text. */
  lemma {:induction false} JoinContains(sep: string, parts: seq<string>, i: nat)
    requires i < |parts|
    ensures Contains(Join(sep, parts), parts[i])
    decreases |parts|
  {
    if i == 0 {
      ContainsSelf(parts[0]);
      if |parts| > 1 {
        ContainsWithin([], parts[0], sep + Join(sep, parts[1..]), parts[0]);
        assert [] + parts[0] + (sep + Join(sep, parts[1..])) == Join(sep, parts);
      }
    } else {
      JoinContains(sep, parts[1..], i - 1);
      ContainsWithin(parts[0] + sep, Join(sep, parts[1..]), [], parts[i]);
      assert parts[0] + sep + Join(sep, parts[1..]) + [] == Join(sep, parts);
    }
  }

  /** The characters of `s` that are not whitespace, in order. */
  function NonSpace(s: string): (r: string)
    ensures NoSpace(r)
    ensures |r| <= |s|
  {
    if s == [] then []
    else (if IsSpace(s[0]) then [] else [s[0]]) + NonSpace(s[1..])
  }

  /** Concatenation of a list of strings. */
  function Concat(parts: seq<string>): string {
    if parts == [] then [] else parts[0] + Concat(parts[1..])
  }

  lemma {:induction false} NonSpaceAppend(a: string, b: string)
    ensures NonSpace(a + b) == NonSpace(a) + NonSpace(b)
  {
    if a == [] {
      assert a + b == b;
    } else {
      assert (a + b)[1..] == a[1..] + b;
      NonSpaceAppend(a[1..], b);
    }
  }

  lemma {:induction false} NonSpaceOfSpaces(s: string)
    requires forall k :: 0 <= k < |s| ==> IsSpace(s[k])
    ensures NonSpace(s) == []
  {
    if s != [] {
      NonSpaceOfSpaces(s[1..]);
    }
  }

  lemma {:induction false} NonSpaceOfWord(s: string)
    requires NoSpace(s)
    ensures NonSpace(s) == s
  {
    if s != [] {
      NonSpaceOfWord(s[1..]);
    }
  }

  /** `split()` keeps every non-whitespace character, in order, and nothing else. */
  lemma WordsKeepText(s: string)
    ensures Concat(Words(s)) == NonSpace(s)
  {
    WordsFromKeepText(s, 0);
    assert s[0..] == s;
  }

  lemma {:induction false} WordsFromKeepText(s: string, from: nat)
    requires from <= |s|
    ensures Concat(WordsFrom(s, from)) == NonSpace(s[from..])
    decreases |s| - from
  {
    var i := SkipSpace(s, from);
    if i == |s| {
      NonSpaceOfSpaces(s[from..]);
    } else {
      var j := SkipWord(s, i);
      WordsFromStep(s, from, i, j);
      NonSpaceSuffix(s, from, i, j);
      WordsFromKeepText(s, j);
    }
  }

  lemma WordsFromStep(s: string, from: nat, i: nat, j: nat)
    requires from <= |s| && i == SkipSpace(s, from) < |s| && j == SkipWord(s, i)
    ensures Concat(WordsFrom(s, from)) == s[i..j] + Concat(WordsFrom(s, j))
  {
    var w, rest := s[i..j], WordsFrom(s, j);
    assert WordsFrom(s, from) == [w] + rest;
    assert ([w] + rest)[1..] == rest;
  }

  lemma NonSpaceSuffix(s: string, from: nat, i: nat, j: nat)
    requires from <= i <= j <= |s|
    requires forall k :: from <= k < i ==> IsSpace(s[k])
    requires forall k :: i <= k < j ==> !IsSpace(s[k])
    ensures NonSpace(s[from..]) == s[i..j] + NonSpace(s[j..])
  {
    var t := s[from..];
    assert forall k :: 0 <= k < |t| ==> t[k] == s[from + k];
    NonSpaceStep(t, i - from, j - from);
    assert t[i - from..j - from] == s[i..j];
    assert t[j - from..] == s[j..];
  }

  lemma NonSpaceStep(s: string, i: nat, j: nat)
    requires i <= j <= |s|
    requires forall k :: 0 <= k < i ==> IsSpace(s[k])
    requires forall k :: i <= k < j ==> !IsSpace(s[k])
    ensures NonSpace(s) == s[i..j] + NonSpace(s[j..])
  {
    NonSpaceSkip(s, i);
    NonSpaceWordAt(s, i, j);
  }

  lemma NonSpaceWordAt(s: string, i: nat, j: nat)
    requires i <= j <= |s|
    requires forall k :: i <= k < j ==> !IsSpace(s[k])
    ensures NonSpace(s[i..]) == s[i..j] + NonSpace(s[j..])
  {
    var t := s[i..];
    assert forall k :: 0 <= k < j - i ==> !IsSpace(t[k]) by {
      forall k | 0 <= k < j - i
        ensures !IsSpace(t[k])
      {
        assert t[k] == s[i + k];
      }
    }
    NonSpaceWord(t, j - i);
    assert t[..j - i] == s[i..j];
    assert t[j - i..] == s[j..];
  }

  /** Leading whitespace contributes nothing. */
  lemma {:induction false} NonSpaceSkip(s: string, i: nat)
    requires i <= |s|
    requires forall k :: 0 <= k < i ==> IsSpace(s[k])
    ensures NonSpace(s) == NonSpace(s[i..])
    decreases i
  {
    if i > 0 {
      NonSpaceSkip(s[1..], i - 1);
      assert s[1..][i - 1..] == s[i..];
    }
  }

  /** A leading word is kept as it is. */
  lemma {:induction false} NonSpaceWord(s: string, j: nat)
    requires j <= |s|
    requires forall k :: 0 <= k < j ==> !IsSpace(s[k])
    ensures NonSpace(s) == s[..j] + NonSpace(s[j..])
    decreases j
  {
    if j > 0 {
      NonSpaceWord(s, j - 1);
      var t := s[j - 1..];
      assert t[0] == s[j - 1] && !IsSpace(t[0]);
      assert t[1..] == s[j..];
      assert NonSpace(t) == [s[j - 1]] + NonSpace(s[j..]);
      assert s[..j - 1] + [s[j - 1]] == s[..j];
    }
  }

  /** A non-empty string without whitespace is one word. */
  lemma WordsOfWord(s: string)
    requires s != [] && NoSpace(s)
    ensures Words(s) == [s]
  {
    assert SkipSpace(s, 0) == 0;
    var j := SkipWord(s, 0);
    assert j == |s|;
    assert s[0..j] == s;
    assert WordsFrom(s, j) == [];
  }

  /** Whitespace before the next word does not change the words that follow. */
  lemma WordsFromSpace(s: string, from: nat)
    requires from < |s| && IsSpace(s[from])
    ensures WordsFrom(s, from) == WordsFrom(s, from + 1)
  {
  }

  /** A word ending at `end` (whitespace there or the end of `s`) starting at `from`. */
  lemma {:induction false} WordsFromWord(s: string, from: nat, end: nat)
    requires from < end <= |s|
    requires forall k :: from <= k < end ==> !IsSpace(s[k])
    requires end < |s| ==> IsSpace(s[end])
    ensures WordsFrom(s, from) == [s[from..end]] + WordsFrom(s, end)
  {
    SkipWordTo(s, from, end);
  }

  lemma {:induction false} SkipWordTo(s: string, from: nat, end: nat)
    requires from <= end <= |s|
    requires forall k :: from <= k < end ==> !IsSpace(s[k])
    requires end < |s| ==> IsSpace(s[end])
    ensures SkipWord(s, from) == end
    decreases end - from
  {
    if from < end {
      SkipWordTo(s, from + 1, end);
    }
  }

  /** `split()` undoes joining words with single spaces. */
  lemma WordsOfJoin(ws: seq<string>)
    requires forall w :: w in ws ==> w != [] && NoSpace(w)
    ensures Words(Join(" ", ws)) == ws
  {
    var s := Join(" ", ws);
    assert s[0..] == s;
    WordsFromJoin(s, 0, ws);
  }

  lemma {:induction false} WordsFromJoin(s: string, from: nat, ws: seq<string>)
    requires from <= |s| && s[from..] == Join(" ", ws)
    requires forall w :: w in ws ==> w != [] && NoSpace(w)
    ensures WordsFrom(s, from) == ws
    decreases ws
  {
    if ws == [] {
      WordsFromEnd(s, from);
    } else if |ws| == 1 {
      WordsFromLast(s, from, ws);
    } else {
      var next := WordsFromNext(s, from, ws);
      WordsFromJoin(s, next, ws[1..]);
    }
  }

  /** The first of several joined words, and where the rest starts. */
  lemma WordsFromNext(s: string, from: nat, ws: seq<string>) returns (next: nat)
    requires from <= |s| && s[from..] == Join(" ", ws) && |ws| > 1
    requires forall w :: w in ws ==> w != [] && NoSpace(w)
    ensures next <= |s| && s[next..] == Join(" ", ws[1..])
    ensures forall w :: w in ws[1..] ==> w != [] && NoSpace(w)
    ensures WordsFrom(s, from) == [ws[0]] + WordsFrom(s, next)
    ensures ws == [ws[0]] + ws[1..]
  {
    var w, tail := ws[0], ws[1..];
    assert w in ws;
    next := from + |w| + 1;
    JoinCons(ws);
    WordThenSpace(s, from, w, Join(" ", tail));
    WordsFromFirst(s, from, from + |w|);
    SliceAfter(s, from, w, Join(" ", tail));
    assert forall v :: v in tail ==> v in ws;
  }

  lemma JoinCons(ws: seq<string>)
    requires |ws| > 1
    ensures Join(" ", ws) == ws[0] + " " + Join(" ", ws[1..])
  {
  }

  lemma WordsFromEnd(s: string, from: nat)
    requires from <= |s| && s[from..] == []
    ensures WordsFrom(s, from) == []
  {
    assert from == |s|;
  }

  lemma WordsFromLast(s: string, from: nat, ws: seq<string>)
    requires |ws| == 1 && from <= |s| && s[from..] == Join(" ", ws)
    requires forall w :: w in ws ==> w != [] && NoSpace(w)
    ensures WordsFrom(s, from) == ws
  {
    var w := ws[0];
    assert w in ws;
    var end := from + |w|;
    assert s[from..] == w;
    assert forall k :: from <= k < end ==> s[k] == w[k - from];
    WordsFromWord(s, from, end);
    assert s[from..end] == w;
    assert WordsFrom(s, end) == [];
  }

  lemma WordsFromFirst(s: string, from: nat, end: nat)
    requires from < end < |s| && IsSpace(s[end])
    requires forall k :: from <= k < end ==> !IsSpace(s[k])
    ensures WordsFrom(s, from) == [s[from..end]] + WordsFrom(s, end + 1)
  {
    WordsFromWord(s, from, end);
    WordsFromSpace(s, end);
  }

  lemma WordThenSpace(s: string, from: nat, w: string, rest: string)
    requires from <= |s| && s[from..] == w + " " + rest
    requires NoSpace(w)
    ensures from + |w| < |s| && IsSpace(s[from + |w|]) && s[from..from + |w|] == w
    ensures forall k :: from <= k < from + |w| ==> !IsSpace(s[k])
  {
    var end := from + |w|;
    assert forall k :: from <= k < end ==> s[k] == w[k - from];
    assert s[end] == ' ';
  }

  lemma SliceAfter(s: string, from: nat, w: string, rest: string)
    requires from <= |s| && s[from..] == w + " " + rest
    ensures from + |w| + 1 <= |s| && s[from + |w| + 1..] == rest
  {
    assert s[from + |w| + 1..] == s[from..][|w| + 1..];
  }

  predicate AllSpace(s: string) {
    forall k :: 0 <= k < |s| ==> IsSpace(s[k])
  }

  /** `gaps[0] + ws[0] + gaps[1] + ws[1] + ... + trail`. */
  function Spaced(gaps: seq<string>, ws: seq<string>, trail: string): string
    requires |gaps| == |ws|
    decreases ws
  {
    if ws == [] then trail else gaps[0] + ws[0] + Spaced(gaps[1..], ws[1..], trail)
  }

  /** Non-empty words without whitespace, separated by non-empty whitespace
      runs; the run before the first word and the trailing run may be empty. */
  predicate WellSpaced(gaps: seq<string>, ws: seq<string>, trail: string) {
    && |gaps| == |ws|
    && AllSpace(trail)
    && (forall i :: 0 <= i < |ws| ==> ws[i] != [] && NoSpace(ws[i]))
    && (forall i :: 0 <= i < |gaps| ==> AllSpace(gaps[i]))
    && (forall i :: 0 < i < |gaps| ==> gaps[i] != [])
  }

  lemma WellSpacedCons(g: string, w: string, gaps: seq<string>, ws: seq<string>, trail: string)
    requires AllSpace(g) && w != [] && NoSpace(w)
    requires WellSpaced(gaps, ws, trail) && (gaps != [] ==> gaps[0] != [])
    ensures WellSpaced([g] + gaps, [w] + ws, trail)
    ensures Spaced([g] + gaps, [w] + ws, trail) == g + w + Spaced(gaps, ws, trail)
  {
    assert ([g] + gaps)[1..] == gaps && ([w] + ws)[1..] == ws;
  }

  /** `split()` of whitespace-separated words gives back the words, whatever
      the length of each whitespace run and of the runs at either end. */
  lemma WordsOfSpaced(gaps: seq<string>, ws: seq<string>, trail: string)
    requires WellSpaced(gaps, ws, trail)
    ensures Words(Spaced(gaps, ws, trail)) == ws
  {
    var s := Spaced(gaps, ws, trail);
    assert s[0..] == s;
    WordsFromSpaced(s, 0, gaps, ws, trail);
  }

  lemma {:induction false} WordsFromSpaced(s: string, from: nat, gaps: seq<string>, ws: seq<string>, trail: string)
    requires WellSpaced(gaps, ws, trail)
    requires from <= |s| && s[from..] == Spaced(gaps, ws, trail)
    ensures WordsFrom(s, from) == ws
    decreases ws
  {
    if ws == [] {
      assert forall k :: from <= k < |s| ==> s[k] == trail[k - from];
      WordsFromSpaces(s, from, |s|);
      WordsFromEnd(s, |s|);
    } else {
      WellSpacedTail(gaps, ws, trail);
      var next := WordsFromGapWord(s, from, gaps[0], ws[0], Spaced(gaps[1..], ws[1..], trail));
      WordsFromSpaced(s, next, gaps[1..], ws[1..], trail);
    }
  }

  /** After the first gap and word comes whitespace or nothing. */
  lemma WellSpacedTail(gaps: seq<string>, ws: seq<string>, trail: string)
    requires WellSpaced(gaps, ws, trail) && ws != []
    ensures WellSpaced(gaps[1..], ws[1..], trail)
    ensures AllSpace(gaps[0]) && ws[0] != [] && NoSpace(ws[0])
    ensures Spaced(gaps, ws, trail) == gaps[0] + ws[0] + Spaced(gaps[1..], ws[1..], trail)
    ensures var rest := Spaced(gaps[1..], ws[1..], trail); rest != [] ==> IsSpace(rest[0])
  {
    if ws[1..] != [] {
      assert gaps[1] != [] && AllSpace(gaps[1]);
      assert Spaced(gaps[1..], ws[1..], trail) == gaps[1] + ws[1] + Spaced(gaps[2..], ws[2..], trail) by {
        assert gaps[1..][1..] == gaps[2..] && ws[1..][1..] == ws[2..];
      }
    }
  }

  /** A whitespace run, a word, and then whitespace or the end of `s`. */
  lemma WordsFromGapWord(s: string, from: nat, g: string, w: string, rest: string) returns (next: nat)
    requires from <= |s| && s[from..] == g + w + rest
    requires AllSpace(g) && w != [] && NoSpace(w)
    requires rest != [] ==> IsSpace(rest[0])
    ensures next <= |s| && s[next..] == rest
    ensures WordsFrom(s, from) == [w] + WordsFrom(s, next)
  {
    var i := from + |g|;
    next := i + |w|;
    GapWordSlices(s, from, i, next, g, w, rest);
    WordsFromSpaces(s, from, i);
    WordsFromWord(s, i, next);
  }

  lemma GapWordSlices(s: string, from: nat, i: nat, next: nat, g: string, w: string, rest: string)
    requires from <= |s| && s[from..] == g + w + rest
    requires i == from + |g| && next == i + |w|
    requires AllSpace(g) && NoSpace(w)
    requires rest != [] ==> IsSpace(rest[0])
    ensures next <= |s|
    ensures forall k :: from <= k < i ==> IsSpace(s[k])
    ensures forall k :: i <= k < next ==> !IsSpace(s[k])
    ensures s[i..next] == w && s[next..] == rest
    ensures next < |s| ==> IsSpace(s[next])
  {
    var t := s[from..];
    assert forall k :: 0 <= k < |g| ==> t[k] == g[k];
    assert forall k :: 0 <= k < |w| ==> t[|g| + k] == w[k];
    assert t[|g|..|g| + |w|] == w;
    assert t[|g| + |w|..] == rest;
  }

  /** Whitespace before the next word is skipped. */
  lemma WordsFromSpaces(s: string, from: nat, upTo: nat)
    requires from <= upTo <= |s|
    requires forall k :: from <= k < upTo ==> IsSpace(s[k])
    ensures WordsFrom(s, from) == WordsFrom(s, upTo)
  {
    SkipSpaces(s, from, upTo);
  }

  lemma {:induction false} SkipSpaces(s: string, from: nat, upTo: nat)
    requires from <= upTo <= |s|
    requires forall k :: from <= k < upTo ==> IsSpace(s[k])
    ensures SkipSpace(s, from) == SkipSpace(s, upTo)
    decreases upTo - from
  {
    if from < upTo {
      SkipSpaces(s, from + 1, upTo);
    }
  }

  /** Conversely, every string is its `split()` words separated by whitespace
      runs: each word is a maximal run of non-whitespace characters. */
  lemma SpacedOfWords(s: string) returns (gaps: seq<string>, trail: string)
    ensures WellSpaced(gaps, Words(s), trail)
    ensures Spaced(gaps, Words(s), trail) == s
  {
    gaps, trail := SpacedFrom(s, 0);
    assert s[0..] == s;
  }

  lemma {:induction false} SpacedFrom(s: string, from: nat) returns (gaps: seq<string>, trail: string)
    requires from <= |s|
    ensures WellSpaced(gaps, WordsFrom(s, from), trail)
    ensures Spaced(gaps, WordsFrom(s, from), trail) == s[from..]
    ensures gaps != [] ==> |gaps[0]| == SkipSpace(s, from) - from
    decreases |s| - from
  {
    var i := SkipSpace(s, from);
    if i == |s| {
      gaps, trail := [], s[from..];
      assert forall k :: 0 <= k < |trail| ==> trail[k] == s[from + k];
    } else {
      var j := SkipWord(s, i);
      GapThenWord(s, from, i, j);
      var g, t := SpacedFrom(s, j);
      var ws := WordsFrom(s, j);
      if j == |s| {
        assert ws == [];
      }
      WellSpacedCons(s[from..i], s[i..j], g, ws, t);
      gaps, trail := [s[from..i]] + g, t;
    }
  }

  /** The whitespace run and the word that `WordsFrom` reads first. */
  lemma GapThenWord(s: string, from: nat, i: nat, j: nat)
    requires from <= |s| && i == SkipSpace(s, from) && i < |s| && j == SkipWord(s, i)
    ensures AllSpace(s[from..i]) && s[i..j] != [] && NoSpace(s[i..j])
    ensures j < |s| ==> IsSpace(s[j])
    ensures s[from..] == s[from..i] + s[i..j] + s[j..]
    ensures WordsFrom(s, from) == [s[i..j]] + WordsFrom(s, j)
  {
    assert forall k :: 0 <= k < i - from ==> s[from..i][k] == s[from + k];
    assert forall k :: 0 <= k < j - i ==> s[i..j][k] == s[i + k];
  }

  /** `s.split(sep)` for a one-character separator: every separator splits, so
      empty fields are kept. */
  function SplitOn(s: string, sep: char): (parts: seq<string>)
    ensures |parts| >= 1
    ensures forall p :: p in parts ==> sep !in p
    ensures Join([sep], parts) == s
    ensures |parts| == Count(s, sep) + 1
    decreases |s|
  {
    if sep !in s then CountAbsent(s, sep); [s]
    else
      var i := IndexOf(s, sep);
      var rest := SplitOn(s[i + 1..], sep);
      assert s == s[..i] + [sep] + s[i + 1..];
      CountAppend(s[..i] + [sep], s[i + 1..], sep);
      CountAppend(s[..i], [sep], sep);
      CountAbsent(s[..i], sep);
      [s[..i]] + rest
  }

  function Count(s: string, c: char): nat {
    if s == [] then 0 else (if s[0] == c then 1 else 0) + Count(s[1..], c)
  }

  lemma {:induction false} CountAppend(a: string, b: string, c: char)
    ensures Count(a + b, c) == Count(a, c) + Count(b, c)
  {
    if a == [] {
      assert a + b == b;
    } else {
      assert (a + b)[1..] == a[1..] + b;
      CountAppend(a[1..], b, c);
    }
  }

  lemma {:induction false} CountAbsent(a: string, c: char)
    requires c !in a
    ensures Count(a, c) == 0
  {
    if a != [] {
      CountAbsent(a[1..], c);
    }
  }

  /** Index of the first occurrence of `c` in `s`. */
  function IndexOf(s: string, c: char): (i: nat)
    requires c in s
    ensures i < |s| && s[i] == c && c !in s[..i]
  {
    if s[0] == c then 0 else 1 + IndexOf(s[1..], c)
  }

  /** `unicode.lower()` on one character. ASCII capitals become small
      letters, and the two non-ASCII capitals whose lower case is ASCII,
      U+0130 (capital I with dot above) and U+212A (Kelvin sign), become
      `i` and `k`. Every other character is kept here; Python maps the
      remaining non-ASCII capitals to other non-ASCII letters. */
  function LowerChar(c: char): (d: char)
    ensures 'A' <= c <= 'Z' ==> 'a' <= d <= 'z' && d as int - c as int == 32
    ensures c == '\U{130}' ==> d == 'i'
    ensures c == '\U{212A}' ==> d == 'k'
    ensures !('A' <= c <= 'Z' || c == '\U{130}' || c == '\U{212A}') ==> d == c
    ensures d as int < 128 <==> c as int < 128 || c == '\U{130}' || c == '\U{212A}'
    ensures !('A' <= d <= 'Z')
  {
    if 'A' <= c <= 'Z' then (c as int + 32) as char
    else if c == '\U{130}' then 'i'
    else if c == '\U{212A}' then 'k'
    else c
  }

  function Lower(s: string): (r: string)
    ensures |r| == |s|
    ensures forall k :: 0 <= k < |s| ==> r[k] == LowerChar(s[k])
  {
    seq(|s|, k requires 0 <= k < |s| => LowerChar(s[k]))
  }
}
