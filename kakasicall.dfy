/** Romanizer post-processing and the planning of the kakasi pipeline
    (lkbutils/nodeprovider/kakasicall.py). The processes themselves are not
    modelled: only the list of conversion steps they would be spawned with. */
module KakasiCall {
  import opened Common
  import PyStr

  // kakasi character-set identifiers (the `CharSet` named tuple).
  const Ascii: char := 'a'
  const JisRoman: char := 'j'
  const Graphic: char := 'g'
  const Kana: char := 'k'
  const Kigou: char := 'E'
  const Katakana: char := 'K'
  const Hiragana: char := 'H'
  const Kanji: char := 'J'

  /** Valid destinations of a romanization. */
  const RomanSets: seq<char> := [Ascii, JisRoman]
  /** Character sets every romanization passes through, in order. */
  const ConversionOrder: seq<char> := [Katakana, Hiragana, Kanji, Hiragana, Katakana]

  /** `zip(xs, ys)`: pairs up to the shorter length. */
  function Zip<T, U>(xs: seq<T>, ys: seq<U>): (r: seq<(T, U)>)
    ensures |r| == if |xs| < |ys| then |xs| else |ys|
    ensures forall i :: 0 <= i < |r| ==> r[i] == (xs[i], ys[i])
  {
    if xs == [] || ys == [] then [] else [(xs[0], ys[0])] + Zip(xs[1..], ys[1..])
  }

  /** The (from, to) arguments of the kakasi processes that
      `kakasi_romanize_series(to_set)` spawns, or its ValueError. */
  function RomanizePlan(toSet: char): (r: Result<seq<(char, char)>, string>)
    ensures r.Err? <==> toSet !in RomanSets
    ensures r.Err? ==> r.error == "invalid destination: \"" + [toSet] + "\""
    ensures r.Ok? ==> |r.value| == |ConversionOrder|
    ensures r.Ok? ==> forall i :: 0 <= i < |r.value| ==> r.value[i].0 == ConversionOrder[i]
    ensures r.Ok? ==> forall i :: 0 <= i < |r.value| - 1 ==> r.value[i].1 == r.value[i + 1].0
    ensures r.Ok? ==> r.value[|r.value| - 1].1 == toSet
  {
    if toSet !in RomanSets then
      Err("invalid destination: \"" + [toSet] + "\"")
    else
      var order := ConversionOrder + [toSet];
      var steps := Zip(order, order[1..]);
      assert |steps| == |ConversionOrder| && order[|ConversionOrder|] == toSet;
      assert forall i :: 0 <= i < |steps| ==> steps[i].0 == order[i] && steps[i].1 == order[i + 1];
      Ok(steps)
  }

  predicate IsEuphonicMark(c: char) {
    c == '\'' || c == '^'
  }

  /** `re.sub(u"(.)['^]", u"\\1\\1", text)`: scanning left to right, every
      character other than a newline that is followed by a mark is written
      twice in place of itself and the mark. */
  function HandleEuphonic(text: string): (r: string)
    ensures |r| == |text|
  {
    if |text| >= 2 && text[0] != '\n' && IsEuphonicMark(text[1]) then
      [text[0], text[0]] + HandleEuphonic(text[2..])
    else if text == [] then []
    else [text[0]] + HandleEuphonic(text[1..])
  }

  /** A character that is not a mark is never rewritten. */
  lemma {:induction false} EuphonicKeepsNonMarks(text: string, i: nat)
    requires i < |text| && !IsEuphonicMark(text[i])
    ensures HandleEuphonic(text)[i] == text[i]
  {
    if |text| >= 2 && text[0] != '\n' && IsEuphonicMark(text[1]) {
      if i >= 2 {
        EuphonicKeepsNonMarks(text[2..], i - 2);
      }
    } else if i > 0 {
      EuphonicKeepsNonMarks(text[1..], i - 1);
    }
  }

  /** A rewritten position held a mark and now repeats the character before
      it, which is not a newline. */
  lemma {:induction false} EuphonicChangesOnlyMarks(text: string, i: nat)
    requires i < |text| && HandleEuphonic(text)[i] != text[i]
    ensures i > 0 && IsEuphonicMark(text[i]) && text[i - 1] != '\n'
    ensures HandleEuphonic(text)[i] == text[i - 1]
  {
    if |text| >= 2 && text[0] != '\n' && IsEuphonicMark(text[1]) {
      if i >= 2 {
        EuphonicChangesOnlyMarks(text[2..], i - 2);
      }
    } else if i > 0 {
      EuphonicChangesOnlyMarks(text[1..], i - 1);
    }
  }

  /** A mark that follows an ordinary character (neither newline nor mark)
      is always replaced by that character. */
  lemma {:induction false} EuphonicDoublesAfterPlain(text: string, i: nat)
    requires 0 < i < |text| && IsEuphonicMark(text[i])
    requires text[i - 1] != '\n' && !IsEuphonicMark(text[i - 1])
    ensures HandleEuphonic(text)[i] == text[i - 1]
  {
    if |text| >= 2 && text[0] != '\n' && IsEuphonicMark(text[1]) {
      if i >= 3 {
        EuphonicDoublesAfterPlain(text[2..], i - 2);
      }
    } else {
      EuphonicDoublesAfterPlain(text[1..], i - 1);
    }
  }

  /** Text with no mark comes back unchanged. */
  lemma {:induction false} EuphonicWithoutMarks(text: string)
    requires forall k :: 0 <= k < |text| ==> !IsEuphonicMark(text[k])
    ensures HandleEuphonic(text) == text
  {
    if text != [] {
      EuphonicWithoutMarks(text[1..]);
    }
  }

  /** Position `i` is the second character of a match in the regex's
      left-to-right scan: it holds a mark, the character before it is not a
      newline, and that character was not itself consumed as the second
      character of an earlier match. */
  predicate MatchSecond(text: string, i: int)
    decreases i
  {
    0 < i < |text| && IsEuphonicMark(text[i]) && text[i - 1] != '\n' && !MatchSecond(text, i - 1)
  }

  /** The scan, position by position: the second character of each match
      becomes the first, and every other character is kept. Marks that follow
      a consumed mark are therefore left as they are. */
  lemma {:induction false} EuphonicScan(text: string, i: nat)
    requires i < |text|
    ensures HandleEuphonic(text)[i] == if MatchSecond(text, i) then text[i - 1] else text[i]
  {
    if |text| >= 2 && text[0] != '\n' && IsEuphonicMark(text[1]) {
      assert MatchSecond(text, 1);
      if i >= 2 {
        EuphonicScan(text[2..], i - 2);
        MatchSecondShift(text, 2, i);
      }
    } else if i >= 1 {
      assert !MatchSecond(text, 1);
      EuphonicScan(text[1..], i - 1);
      MatchSecondShift(text, 1, i);
    }
  }

  /** Past a position `d` that is no match's second character, the scan
      restarts at `d` as on `text[d..]`. */
  lemma {:induction false} MatchSecondShift(text: string, d: nat, i: nat)
    requires 1 <= d <= i < |text| && !MatchSecond(text, d)
    ensures MatchSecond(text, i) == MatchSecond(text[d..], i - d)
    decreases i
  {
    if i > d {
      MatchSecondShift(text, d, i - 1);
      assert text[d..][i - d] == text[i] && text[d..][i - d - 1] == text[i - 1];
    }
  }

  /** A mark right after a doubled mark stays: `x'^` becomes `xx^`, and after
      a newline the first mark is kept and doubles the second. */
  lemma MarkAfterMarkExamples()
    ensures HandleEuphonic("x'^") == "xx^"
    ensures HandleEuphonic("\n'^") == "\n''"
  {
    assert HandleEuphonic("x'^")[2..] == "^";
    assert HandleEuphonic("\n'^")[1..] == HandleEuphonic("'^");
  }

  /** `_prettify`: strip surrounding whitespace, then double euphonic marks. */
  function Prettify(output: string): (r: string)
    ensures |r| == |PyStr.Strip(output)|
    ensures r == [] <==> forall k :: 0 <= k < |output| ==> PyStr.IsSpace(output[k])
    ensures r != [] ==> !PyStr.IsSpace(r[0])
  {
    HandleEuphonic(PyStr.Strip(output))
  }
}
