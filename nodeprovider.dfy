/** Unique name registration (lkbutils/nodeprovider/__init__.py), for a
    provider created with `romanize=False`. */
module NodeProvider {
  import opened Common
  import PyStr

  datatype NameError =
    | InvalidName(name: string)    // the preprocessed name fails the pattern
    | NameConflict(name: string)   // the preprocessed name is already stored

  /** `_handle_spacing_chars`: `u'_'.join(name.split())`. */
  function HandleSpacingChars(name: string): (r: string)
    ensures PyStr.NoSpace(r)
  {
    var words := PyStr.Words(name);
    JoinHasNoSpace(words);
    PyStr.Join("_", words)
  }

  lemma {:induction false} JoinHasNoSpace(words: seq<string>)
    requires forall w :: w in words ==> PyStr.NoSpace(w)
    ensures PyStr.NoSpace(PyStr.Join("_", words))
  {
    if |words| > 1 {
      JoinHasNoSpace(words[1..]);
      assert words[0] in words;
    } else if |words| == 1 {
      assert words[0] in words;
    }
  }

  /** The characters of `s` other than `_`. */
  function DropUnderscores(s: string): (r: string)
    ensures '_' !in r
  {
    if s == [] then [] else (if s[0] == '_' then [] else [s[0]]) + DropUnderscores(s[1..])
  }

  lemma {:induction false} DropUnderscoresAppend(a: string, b: string)
    ensures DropUnderscores(a + b) == DropUnderscores(a) + DropUnderscores(b)
  {
    if a == [] {
      assert a + b == b;
    } else {
      assert (a + b)[1..] == a[1..] + b;
      DropUnderscoresAppend(a[1..], b);
    }
  }

  lemma {:induction false} DropUnderscoresJoin(words: seq<string>)
    ensures DropUnderscores(PyStr.Join("_", words)) == DropUnderscores(PyStr.Concat(words))
  {
    if |words| == 1 {
      assert PyStr.Concat(words) == words[0] + PyStr.Concat([]);
      assert words[0] + [] == words[0];
    } else if |words| > 1 {
      var rest := words[1..];
      DropUnderscoresJoin(rest);
      DropUnderscoresAppend(words[0] + "_", PyStr.Join("_", rest));
      DropUnderscoresAppend(words[0], "_");
      DropUnderscoresAppend(words[0], PyStr.Concat(rest));
    }
  }

  /** Whitespace handling only drops whitespace and inserts `_` separators:
      apart from underscores, the result is exactly the non-whitespace text. */
  lemma SpacingKeepsText(name: string)
    ensures DropUnderscores(HandleSpacingChars(name)) == DropUnderscores(PyStr.NonSpace(name))
  {
    DropUnderscoresJoin(PyStr.Words(name));
    PyStr.WordsKeepText(name);
  }

  /** Every whitespace run between words becomes one `_`, and whitespace at
      either end is dropped, whatever the length of each run. */
  lemma SpacingOfSpaced(gaps: seq<string>, ws: seq<string>, trail: string)
    requires PyStr.WellSpaced(gaps, ws, trail)
    ensures HandleSpacingChars(PyStr.Spaced(gaps, ws, trail)) == PyStr.Join("_", ws)
  {
    PyStr.WordsOfSpaced(gaps, ws, trail);
  }

  /** Every name is its words separated by whitespace runs, and the spacing
      step joins exactly those words with `_`. */
  lemma SpacingSplits(name: string) returns (gaps: seq<string>, ws: seq<string>, trail: string)
    ensures PyStr.WellSpaced(gaps, ws, trail) && PyStr.Spaced(gaps, ws, trail) == name
    ensures HandleSpacingChars(name) == PyStr.Join("_", ws)
  {
    ws := PyStr.Words(name);
    gaps, trail := PyStr.SpacedOfWords(name);
  }

  /** Runs of mixed whitespace, and whitespace at both ends. */
  lemma SpacingRunsExample()
    ensures HandleSpacingChars("  a \t b  ") == "a_b"
  {
    RunsLayout();
    SpacingOfSpaced(["  ", " \t "], ["a", "b"], "  ");
    assert PyStr.Join("_", ["a", "b"]) == "a" + "_" + "b";
  }

  lemma RunsLayout()
    ensures PyStr.WellSpaced(["  ", " \t "], ["a", "b"], "  ")
    ensures PyStr.Spaced(["  ", " \t "], ["a", "b"], "  ") == "  a \t b  "
  {
    var gaps, ws := ["  ", " \t "], ["a", "b"];
    assert PyStr.Spaced(gaps[1..], ws[1..], "  ") == " \t b  " by {
      assert gaps[1..][1..] == [] && ws[1..][1..] == [];
    }
    assert PyStr.IsSpace(' ') && PyStr.IsSpace('\t') && !PyStr.IsSpace('a') && !PyStr.IsSpace('b');
  }

  /** A name without whitespace is left alone by the spacing step. */
  lemma SpacingKeepsWord(name: string)
    requires name != [] && PyStr.NoSpace(name)
    ensures HandleSpacingChars(name) == name
  {
    PyStr.WordsOfWord(name);
  }

  /** `_preprocess_name` without romanization: spacing, then `lower()`. */
  function PreprocessName(name: string): (r: string)
    ensures PyStr.NoSpace(r)
    ensures forall k :: 0 <= k < |r| ==> !('A' <= r[k] <= 'Z')
  {
    var spaced := HandleSpacingChars(name);
    var r := PyStr.Lower(spaced);
    assert forall k :: 0 <= k < |r| ==> r[k] == PyStr.LowerChar(spaced[k]);
    r
  }

  predicate IsAsciiLetter(c: char) {
    'a' <= c <= 'z' || 'A' <= c <= 'Z'
  }

  /** `\w` of Python 2's `re` without the UNICODE flag. */
  predicate IsWordChar(c: char) {
    IsAsciiLetter(c) || '0' <= c <= '9' || c == '_'
  }

  /** `[^\W\d]\w+` over the whole of `s`. */
  predicate FormalCore(s: string) {
    |s| >= 2 && (IsAsciiLetter(s[0]) || s[0] == '_') &&
    forall k :: 1 <= k < |s| ==> IsWordChar(s[k])
  }

  /** `re_formal_name.match(name)` for `^[^\W\d]\w+$`: Python's `$` also
      matches just before a final newline. */
  predicate IsValidName(name: string) {
    FormalCore(name) || (|name| > 0 && name[|name| - 1] == '\n' && FormalCore(name[..|name| - 1]))
  }

  /** After preprocessing, validity is exactly the ASCII identifier shape:
      the newline allowance of `$` never applies. */
  lemma ValidPreprocessedName(name: string)
    ensures var p := PreprocessName(name);
      IsValidName(p) <==> FormalCore(p)
  {
    var p := PreprocessName(name);
    if |p| > 0 {
      assert !PyStr.IsSpace(p[|p| - 1]);
    }
  }

  /** The registry: `_namestore` maps each registered name to the spelling it
      was registered with; `ns` is a live view of it. */
  class NameProvider {
    var store: map<string, string>

    constructor ()
      ensures store == map[]
    {
      store := map[];
    }

    /** `name in provider.ns` */
    predicate NsContains(key: string)
      reads this
    {
      key in store
    }

    /** `getattr(provider.ns, key)`: the original spelling, or None where
        Python raises AttributeError. */
    function NsLookup(key: string): (r: Option<string>)
      reads this
      ensures r.Some? <==> key in store
      ensures r.Some? ==> r.value == store[key]
    {
      if key in store then Some(store[key]) else None
    }

    /** `add(name)`: preprocess, validate, then register without conflicts. */
    method Add(name: string) returns (r: Result<string, NameError>)
      modifies this
      ensures var valid := PreprocessName(name);
        if !IsValidName(valid) then r == Err(InvalidName(valid)) && store == old(store)
        else if valid in old(store) then r == Err(NameConflict(valid)) && store == old(store)
        else r == Ok(valid) && store == old(store)[valid := name]
      ensures old(store).Keys <= store.Keys
      ensures forall k :: k in old(store) ==> store[k] == old(store)[k]
    {
      var valid := PreprocessName(name);
      if !IsValidName(valid) {
        return Err(InvalidName(valid));
      }
      var stored := AddToStore(valid, name);
      if stored.Err? {
        return Err(stored.error);
      }
      r := Ok(valid);
    }

    /** `_add_to_store` */
    method AddToStore(key: string, original: string) returns (r: Result<(), NameError>)
      modifies this
      ensures key in old(store) ==> r == Err(NameConflict(key)) && store == old(store)
      ensures key !in old(store) ==> r == Ok(()) && store == old(store)[key := original]
    {
      if key in store {
        return Err(NameConflict(key));
      }
      store := store[key := original];
      r := Ok(());
    }
  }

  /** What `add` accepts: every registered name is a lower-case ASCII
      identifier of at least two characters without whitespace. */
  lemma AcceptedNameShape(name: string)
    requires IsValidName(PreprocessName(name))
    ensures var p := PreprocessName(name);
      |p| >= 2 && (('a' <= p[0] <= 'z') || p[0] == '_') &&
      forall k :: 0 <= k < |p| ==> ('a' <= p[k] <= 'z' || '0' <= p[k] <= '9' || p[k] == '_')
  {
    ValidPreprocessedName(name);
  }

  /** Spaces between words become single underscores. */
  lemma SpacingOfJoin(ws: seq<string>)
    requires forall w :: w in ws ==> w != [] && PyStr.NoSpace(w)
    ensures HandleSpacingChars(PyStr.Join(" ", ws)) == PyStr.Join("_", ws)
  {
    PyStr.WordsOfJoin(ws);
  }

  /** `add(u'John')` registers `john`. */
  lemma JohnExample()
    ensures PreprocessName("John") == "john"
  {
    SpacingKeepsWord("John");
  }

  /** `add(u'ken')` after `add(u'Ken')` conflicts: both normalize to `ken`. */
  lemma KenConflictExample()
    ensures PreprocessName("Ken") == PreprocessName("ken") == "ken"
  {
    SpacingKeepsWord("Ken");
    SpacingKeepsWord("ken");
  }

  /** `add(u'3way')` is refused: a name may not start with a digit. */
  lemma LeadingDigitExample()
    ensures !IsValidName(PreprocessName("3way"))
  {
    SpacingKeepsWord("3way");
  }

  /** `add(u'魂')` is refused: only ASCII letters are word characters. */
  lemma NonAsciiExample()
    ensures !IsValidName(PreprocessName("魂"))
  {
    ForeignCharRejected("魂", '魂');
  }

  /** `add(u"I'm fine")` is refused: the apostrophe survives preprocessing. */
  lemma ApostropheExample()
    ensures !IsValidName(PreprocessName("I'm fine"))
  {
    ForeignCharRejected("I'm fine", '\'');
  }

  /** A name holding a character that is not whitespace and whose lower case
      is not an ASCII word character is always refused: preprocessing keeps
      that character, lowered. */
  lemma ForeignCharRejected(name: string, c: char)
    requires c in name && !PyStr.IsSpace(c) && !IsWordChar(PyStr.LowerChar(c))
    ensures !IsValidName(PreprocessName(name))
  {
    NonSpaceKeeps(name, c);
    DropUnderscoresKeeps(PyStr.NonSpace(name), c);
    SpacingKeepsText(name);
    DropUnderscoresKeeps(HandleSpacingChars(name), c);
    var spaced := HandleSpacingChars(name);
    var k :| 0 <= k < |spaced| && spaced[k] == c;
    var p := PreprocessName(name);
    assert p[k] == PyStr.LowerChar(c);
    ValidPreprocessedName(name);
  }

  /** Exactly the characters whose lower case is an ASCII word character can
      survive preprocessing in an accepted name: ASCII word characters and
      the two capitals U+0130 and U+212A. */
  lemma LowersToWordChar(c: char)
    ensures IsWordChar(PyStr.LowerChar(c)) <==> IsWordChar(c) || c == '\U{130}' || c == '\U{212A}'
  {
  }

  /** `add(u'\u212aen')` registers `ken`: the Kelvin sign lowers to `k`. */
  lemma KelvinExample()
    ensures PreprocessName("\U{212A}en") == "ken"
    ensures IsValidName(PreprocessName("\U{212A}en"))
  {
    SpacingKeepsWord("\U{212A}en");
    assert PyStr.Lower("\U{212A}en") == "ken";
  }

  lemma {:induction false} NonSpaceKeeps(s: string, c: char)
    requires c in s && !PyStr.IsSpace(c)
    ensures c in PyStr.NonSpace(s)
  {
    if s[0] != c {
      NonSpaceKeeps(s[1..], c);
    }
  }

  lemma {:induction false} DropUnderscoresKeeps(s: string, c: char)
    requires c != '_'
    ensures c in DropUnderscores(s) <==> c in s
  {
    if s != [] {
      DropUnderscoresKeeps(s[1..], c);
      assert s == [s[0]] + s[1..];
    }
  }
}
