/** The filter language: which files a filter such as "w1 w2|w3/w4" selects. */
module MatchFile {
  import opened Text
  import opened Split
  import opened SearchModes
  import Levenshtein
  import Wdx = WdxCache

  // ---- what a filter means ----

  /** Everything fixed while one file is compared with one filter. */
  datatype Scene = Scene(
    search: Settings,
    mode: int,
    threshold: int,
    anchorFirst: bool,             // the first word of an alternative must match at the beginning
    andSep: WChar, orSep: WChar, wdxSep: WChar,
    name: WString,
    usable: bool,                  // plugin fields may be asked for
    groups: seq<seq<nat>>,         // the fields that part k of the filter looks at
    plugin: Wdx.Plugin,
    file: WString)

  /** A word is found in the file name (by the first part of the filter only) or in a field of the part's group. */
  ghost predicate WordFound(x: Scene, part: nat, word: WString, anchored: bool) {
    || (part == 0 && Found(x.search, word, x.name, x.mode, x.threshold, anchored))
    || (x.usable && part < |x.groups| && exists g :: g in x.groups[part] && FoundInField(x, word, g))
  }

  ghost predicate FoundInField(x: Scene, word: WString, g: nat) {
    Found(x.search, word, Wdx.Value(x.plugin, x.search.caseSensitive, x.file, g), x.mode, x.threshold, false)
  }

  /** Word i of an alternative: empty words ask nothing, and only word 0 may be anchored. */
  ghost predicate WordHolds(x: Scene, part: nat, words: seq<WString>, i: nat)
    requires i < |words|
  {
    words[i] == [] || WordFound(x, part, words[i], x.anchorFirst && i == 0)
  }

  ghost predicate AlternativeHolds(x: Scene, part: nat, alternative: WString) {
    var words := Pieces(alternative, x.andSep);
    forall i :: 0 <= i < |words| ==> WordHolds(x, part, words, i)
  }

  ghost predicate PartHolds(x: Scene, part: nat, text: WString) {
    text == [] || exists a :: a in Pieces(text, x.orSep) && AlternativeHolds(x, part, a)
  }

  ghost predicate FilterHolds(x: Scene, filter: WString) {
    var parts := Pieces(filter, x.wdxSep);
    forall k :: 0 <= k < |parts| ==> PartHolds(x, k, parts[k])
  }

  /** A file that a filter finds by simple search is also found when its words may be edited or scattered. */
  lemma SimpleFilterIsStrictest(x: Scene, y: Scene, filter: WString)
    requires (x.mode == 1 || x.mode == 4) && (y == x.(mode := 5) || (y == x.(mode := 3) && x.threshold >= 0))
    ensures FilterHolds(x, filter) ==> FilterHolds(y, filter)
  {
    forall word, anchored, part | WordFound(x, part, word, anchored) ensures WordFound(y, part, word, anchored) {
      SimpleWordIsStrictest(x, y, word, x.name, anchored);
      forall g | FoundInField(x, word, g) ensures FoundInField(y, word, g) {
        SimpleWordIsStrictest(x, y, word, Wdx.Value(x.plugin, x.search.caseSensitive, x.file, g), false);
      }
    }
    FilterIsMonotone(x, y, filter);
  }

  lemma SimpleWordIsStrictest(x: Scene, y: Scene, word: WString, name: WString, anchored: bool)
    requires (x.mode == 1 || x.mode == 4) && (y == x.(mode := 5) || (y == x.(mode := 3) && x.threshold >= 0))
    ensures Found(x.search, word, name, x.mode, x.threshold, anchored) ==>
        Found(y.search, word, name, y.mode, y.threshold, anchored)
  {
    SimpleIsStrictest(TaskFor(x.search, word, name, anchored), if x.threshold >= 0 then x.threshold else 0);
  }

  /** Where a word may be found: the name, by the first part, and the fields of the part's group. */
  ghost predicate FoundSomewhere(x: Scene, part: nat, word: WString, first: bool) {
    || (part == 0 && Found(x.search, word, x.name, x.mode, x.threshold, x.anchorFirst && first))
    || (x.usable && part < |x.groups| && exists g ::
          && g in x.groups[part]
          && Found(x.search, word, Wdx.Value(x.plugin, x.search.caseSensitive, x.file, g), x.mode, x.threshold, false))
  }

  /**
   The meaning of a filter on its structure: whatever lists of parts, alternatives and words it is composed of, every
   part that is not empty has an alternative of whose words each is empty or found, the first of them anchored if
   words are.
   */
  lemma FilterMeans(x: Scene, filter: WString, parts: seq<WString>, alternatives: seq<seq<WString>>,
                    words: seq<seq<seq<WString>>>)
    requires Composes(parts, x.wdxSep, filter) && |alternatives| == |words| == |parts|
    requires forall k :: 0 <= k < |parts| ==>
               Composes(alternatives[k], x.orSep, parts[k]) && |words[k]| == |alternatives[k]|
    requires forall k, a :: 0 <= k < |parts| && 0 <= a < |alternatives[k]| ==>
               Composes(words[k][a], x.andSep, alternatives[k][a])
    ensures FilterHolds(x, filter) <==>
              forall k :: 0 <= k < |parts| ==>
                parts[k] == [] || exists a :: 0 <= a < |words[k]| && AllFound(x, k, words[k][a])
  {
    ComposedOf(parts, x.wdxSep, filter);
    forall k | 0 <= k < |parts|
      ensures PartHolds(x, k, parts[k]) <==>
                parts[k] == [] || exists a :: 0 <= a < |words[k]| && AllFound(x, k, words[k][a])
    {
      ComposedOf(alternatives[k], x.orSep, parts[k]);
      PartMeans(x, k, parts[k], alternatives[k], words[k]);
    }
    hide PartHolds, AllFound, Composes;
  }

  ghost predicate AllFound(x: Scene, part: nat, words: seq<WString>) {
    forall i :: 0 <= i < |words| ==> words[i] == [] || FoundSomewhere(x, part, words[i], i == 0)
  }

  lemma PartMeans(x: Scene, k: nat, part: WString, alternatives: seq<WString>, words: seq<seq<WString>>)
    requires Pieces(part, x.orSep) == alternatives && |words| == |alternatives|
    requires forall a :: 0 <= a < |alternatives| ==> Composes(words[a], x.andSep, alternatives[a])
    ensures PartHolds(x, k, part) <==> part == [] || exists a :: 0 <= a < |words| && AllFound(x, k, words[a])
  {
    forall a | 0 <= a < |alternatives|
      ensures AlternativeHolds(x, k, alternatives[a]) <==> AllFound(x, k, words[a])
    {
      ComposedOf(words[a], x.andSep, alternatives[a]);
      AlternativeMeans(x, k, alternatives[a], words[a]);
    }
    hide AlternativeHolds, AllFound, Composes, Pieces;
    if PartHolds(x, k, part) && part != [] {
      var alternative :| alternative in alternatives && AlternativeHolds(x, k, alternative);
      var a :| 0 <= a < |alternatives| && alternatives[a] == alternative;
      assert AllFound(x, k, words[a]);
    }
  }

  lemma AlternativeMeans(x: Scene, k: nat, alternative: WString, words: seq<WString>)
    requires Pieces(alternative, x.andSep) == words
    ensures AlternativeHolds(x, k, alternative) <==> AllFound(x, k, words)
  {
    forall i | 0 <= i < |words|
      ensures WordHolds(x, k, words, i) <==> words[i] == [] || FoundSomewhere(x, k, words[i], i == 0)
    {
    }
    hide WordHolds, FoundSomewhere, Pieces;
  }

  // ---- how the loops decide it ----

  /** The plugin cache is ready to answer for the file of the scene. */
  ghost predicate Ready(x: Scene, wdx: Wdx.Wdx)
    reads wdx
  {
    wdx.Valid(x.search.caseSensitive) &&
    (x.usable ==>
      && wdx.lastFile == x.file && wdx.lastCaseSensitive == x.search.caseSensitive
      && wdx.plugin == x.plugin
      && forall k, i :: 0 <= k < |x.groups| && 0 <= i < |x.groups[k]| ==> x.groups[k][i] < wdx.size)
  }

  method AskField(x: Scene, wdx: Wdx.Wdx, word: WString, g: nat) returns (found: bool)
    requires x.usable && Ready(x, wdx) && |word| <= Levenshtein.MAX_INT && g < wdx.size
    modifies wdx`field
    ensures Ready(x, wdx)
    ensures found <==> FoundInField(x, word, g)
  {
    var text := wdx.Get(g);
    found := FindInFilename(x.search, word, text, x.mode, x.threshold, false);
  }

  method AskGroup(x: Scene, wdx: Wdx.Wdx, word: WString, group: seq<nat>) returns (found: bool)
    requires x.usable && Ready(x, wdx) && |word| <= Levenshtein.MAX_INT
    requires forall i :: 0 <= i < |group| ==> group[i] < wdx.size
    modifies wdx`field
    ensures Ready(x, wdx)
    ensures found <==> exists g :: g in group && FoundInField(x, word, g)
  {
    hide Ready, FoundInField;
    for i := 0 to |group|
      invariant Ready(x, wdx)
      invariant forall k :: 0 <= k < i ==> !FoundInField(x, word, group[k])
    {
      found := AskField(x, wdx, word, group[i]);
      if found { return; }
    }
    return false;
  }

  method MatchWord(x: Scene, wdx: Wdx.Wdx, part: nat, word: WString, anchored: bool) returns (found: bool)
    requires Ready(x, wdx) && |word| <= Levenshtein.MAX_INT
    modifies wdx`field
    ensures Ready(x, wdx)
    ensures found <==> WordFound(x, part, word, anchored)
  {
    if part == 0 {
      found := FindInFilename(x.search, word, x.name, x.mode, x.threshold, anchored);
      if found { return; }
    }
    if x.usable && part < |x.groups| {
      found := AskGroup(x, wdx, word, x.groups[part]);
    } else {
      found := false;
    }
  }

  method MatchAlternative(x: Scene, wdx: Wdx.Wdx, part: nat, alternative: WString) returns (holds: bool)
    requires Ready(x, wdx) && |alternative| <= Levenshtein.MAX_INT
    modifies wdx`field
    ensures Ready(x, wdx)
    ensures holds <==> AlternativeHolds(x, part, alternative)
  {
    hide Ready, WordFound, StringSplit;
    var rest, anchored := alternative, x.anchorFirst;
    ghost var words, n := Pieces(alternative, x.andSep), 0;
    while rest != []
      invariant Ready(x, wdx)
      invariant 0 <= n <= |words| && words[n..] == Pieces(rest, x.andSep)
      invariant |rest| <= |alternative|
      invariant anchored == (x.anchorFirst && n == 0)
      invariant forall i :: 0 <= i < n ==> WordHolds(x, part, words, i)
      decreases |rest|
    {
      var cut := StringSplit(rest, x.andSep, false);
      var word := cut.0;
      rest := cut.1;
      assert words[n] == words[n..][0] == word && words[n + 1..] == words[n..][1..];
      if word == [] {
        anchored := false;
      } else {
        var found := MatchWord(x, wdx, part, word, anchored);
        assert found <==> WordHolds(x, part, words, n);
        if !found { return false; }
        anchored := false;
      }
      n := n + 1;
    }
    return true;
  }

  method MatchPart(x: Scene, wdx: Wdx.Wdx, part: nat, text: WString) returns (holds: bool)
    requires Ready(x, wdx) && |text| <= Levenshtein.MAX_INT
    modifies wdx`field
    ensures Ready(x, wdx)
    ensures holds <==> PartHolds(x, part, text)
  {
    hide Ready, AlternativeHolds, StringSplit;
    if text == [] { return true; }
    var rest := text;
    ghost var alternatives, n := Pieces(text, x.orSep), 0;
    while rest != []
      invariant Ready(x, wdx)
      invariant 0 <= n <= |alternatives| && alternatives[n..] == Pieces(rest, x.orSep)
      invariant |rest| <= |text|
      invariant forall i :: 0 <= i < n ==> !AlternativeHolds(x, part, alternatives[i])
      decreases |rest|
    {
      var cut := StringSplit(rest, x.orSep, false);
      rest := cut.1;
      assert alternatives[n] == alternatives[n..][0] == cut.0 && alternatives[n + 1..] == alternatives[n..][1..];
      var found := MatchAlternative(x, wdx, part, cut.0);
      if found { return true; }
      n := n + 1;
    }
    return false;
  }

  method MatchFilter(x: Scene, wdx: Wdx.Wdx, filter: WString) returns (holds: bool)
    requires Ready(x, wdx) && |filter| <= Levenshtein.MAX_INT
    modifies wdx`field
    ensures Ready(x, wdx)
    ensures holds <==> FilterHolds(x, filter)
  {
    hide Ready, PartHolds, StringSplit;
    var rest, number := filter, 0;
    ghost var parts := Pieces(filter, x.wdxSep);
    while rest != []
      invariant Ready(x, wdx)
      invariant 0 <= number <= |parts| && parts[number..] == Pieces(rest, x.wdxSep)
      invariant |rest| <= |filter|
      invariant forall k :: 0 <= k < number ==> PartHolds(x, k, parts[k])
      decreases |rest|
    {
      var cut := StringSplit(rest, x.wdxSep, false);
      rest := cut.1;
      assert parts[number] == parts[number..][0] == cut.0 && parts[number + 1..] == parts[number..][1..];
      var found := MatchPart(x, wdx, number, cut.0);
      if !found { return false; }
      number := number + 1;
    }
    return true;
  }

  // ---- reading the head of a filter ----

  datatype Config = Config(
    search: Settings,
    simpleChar: WString, regexChar: WString, levenChar: WString, srchChar: WString, beginChar: WString,
    andSep: WChar, orSep: WChar, wdxSep: WChar, negateChar: WString,
    matchBeginning: bool, overrideSearch: int, invertResult: bool)

  /** A filter without its head: Never when the head alone already decides against every file. */
  datatype Query = Never | Query(positive: bool, mode: int, threshold: int, body: WString)

  function First(text: WString): WString { if text == [] then [] else text[..1] }

  function Rest(text: WString): WString { if text == [] then [] else text[1..] }

  function ChosenMode(c: Config, filter: WString): int {
    if First(filter) == c.simpleChar then 1
    else if First(filter) == c.regexChar then 2
    else if First(filter) == c.levenChar then 3
    else if First(filter) == c.srchChar then 5
    else if First(filter) == c.beginChar then 4
    else 0
  }

  function DefaultMode(c: Config): int {
    if c.overrideSearch != 0 then
      if 0 < c.overrideSearch < 4 then c.overrideSearch else if c.overrideSearch == 4 then 5 else 1
    else if c.simpleChar == [] then 1
    else if c.regexChar == [] then 2
    else if c.levenChar == [] then 3
    else if c.srchChar == [] then 5
    else if c.beginChar == [] then 4
    else 0
  }

  /** Optional negation, optional mode letter, and for Levenshtein search an optional digit for the threshold. */
  function ReadHead(c: Config, threshold: int, filter: WString): (q: Query)
    ensures q.Query? ==> |q.body| <= |filter|
  {
    var inverted := c.overrideSearch != 0 && c.invertResult;
    if First(filter) != c.negateChar then ReadMode(c, threshold, !inverted, filter)
    else if Rest(filter) == [] then Never
    else ReadMode(c, threshold, inverted, Rest(filter))
  }

  function ReadMode(c: Config, threshold: int, positive: bool, f: WString): (q: Query)
    ensures q.Query? ==> |q.body| <= |f|
  {
    var chosen := ChosenMode(c, f);
    if chosen != 0 then ReadDigit(chosen, threshold, positive, Rest(f))
    else if DefaultMode(c) == 0 then Never
    else ReadDigit(DefaultMode(c), threshold, positive, f)
  }

  function ReadDigit(mode: int, threshold: int, positive: bool, g: WString): (q: Query)
    ensures q.Query? && |q.body| <= |g|
  {
    if mode == 3 && StartsWithDigit(g) then Query(positive, mode, g[0] as int - '0' as int, g[1..])
    else Query(positive, mode, threshold, g)
  }

  predicate StartsWithDigit(text: WString) {
    text != [] && '1' as int <= text[0] as int <= '9' as int
  }

  function ModeChar(c: Config, mode: int): WString {
    match mode
    case 1 => c.simpleChar
    case 2 => c.regexChar
    case 3 => c.levenChar
    case 5 => c.srchChar
    case _ => c.beginChar
  }

  /** No two of the head letters are the same. Any of the mode letters may be left empty. */
  predicate HeadLettersDiffer(c: Config) {
    && |c.negateChar| == 1
    && (forall m :: 1 <= m <= 5 ==> |ModeChar(c, m)| <= 1 && ModeChar(c, m) != c.negateChar)
    && forall m, k :: 1 <= m < k <= 5 && ModeChar(c, m) != [] ==> ModeChar(c, m) != ModeChar(c, k)
  }

  /**
   A head put together from negation, mode letter and threshold digit is read back as these, and the rest is the body.
   */
  lemma HeadIsReadBack(c: Config, threshold: int, negated: bool, mode: int, digit: WString, body: WString)
    requires HeadLettersDiffer(c) && 1 <= mode <= 5 && ModeChar(c, mode) != []
    requires digit == [] || (mode == 3 && |digit| == 1 && StartsWithDigit(digit))
    requires mode == 3 && digit == [] ==> !StartsWithDigit(body)
    ensures ReadHead(c, threshold, (if negated then c.negateChar else []) + (ModeChar(c, mode) + (digit + body)))
            == Query(negated == (c.overrideSearch != 0 && c.invertResult), mode,
                     if digit == [] then threshold else digit[0] as int - '0' as int, body)
  {
    var g := digit + body;
    var f := ModeChar(c, mode) + g;
    assert First(f) == ModeChar(c, mode) && Rest(f) == g;
    ModeIsChosen(c, f, mode);
    DigitIsReadBack(mode, threshold, negated == (c.overrideSearch != 0 && c.invertResult), digit, body);
    assert [] + f == f;
    assert First(c.negateChar + f) == c.negateChar && Rest(c.negateChar + f) == f;
    hide ChosenMode, DefaultMode, ReadDigit, First, Rest;
  }

  /**
   A mode letter in front chooses its mode, the first in this order if it stands for several, and a digit from 1 to 9
   behind it is the threshold in Levenshtein mode.
   */
  lemma LetterChoosesMode(c: Config, threshold: int, l: WChar, body: WString)
    requires c.negateChar != [l]
    ensures var q, positive := ReadHead(c, threshold, [l] + body), !(c.overrideSearch != 0 && c.invertResult);
            && (c.simpleChar == [l] ==> q == Query(positive, 1, threshold, body))
            && ([l] !in [c.simpleChar] && c.regexChar == [l] ==> q == Query(positive, 2, threshold, body))
            && ([l] !in [c.simpleChar, c.regexChar] && c.levenChar == [l] ==>
                  q == if body != [] && 49 <= body[0] <= 57
                       then Query(positive, 3, body[0] as int - 48, body[1..]) else Query(positive, 3, threshold, body))
            && ([l] !in [c.simpleChar, c.regexChar, c.levenChar] && c.srchChar == [l] ==>
                  q == Query(positive, 5, threshold, body))
            && ([l] !in [c.simpleChar, c.regexChar, c.levenChar, c.srchChar] && c.beginChar == [l] ==>
                  q == Query(positive, 4, threshold, body))
  {
    var f := [l] + body;
    assert First(f) == [l] && Rest(f) == body;
    TheDigits(body);
    hide First, Rest, StartsWithDigit, DefaultMode;
  }

  lemma TheDigits(text: WString)
    ensures StartsWithDigit(text) <==> text != [] && 49 <= text[0] <= 57
  {
  }

  /**
   The mode of a filter that does not name one: the override's, or that of the first letter left empty; 0 for none.
   */
  predicate ModeWithoutLetter(c: Config, mode: int) {
    && (c.overrideSearch == 1 ==> mode == 1) && (c.overrideSearch == 2 ==> mode == 2)
    && (c.overrideSearch == 3 ==> mode == 3) && (c.overrideSearch == 4 ==> mode == 5)
    && (c.overrideSearch < 0 || 4 < c.overrideSearch ==> mode == 1)
    && (c.overrideSearch == 0 ==>
          if c.simpleChar == [] then mode == 1 else if c.regexChar == [] then mode == 2
          else if c.levenChar == [] then mode == 3 else if c.srchChar == [] then mode == 5
          else if c.beginChar == [] then mode == 4 else mode == 0)
  }

  /** A filter that begins with no letter of a head is all body, or shows nothing if no mode remains for it. */
  lemma PlainFilterIsRead(c: Config, threshold: int, filter: WString, mode: int)
    requires filter != [] && filter[..1] != c.negateChar
    requires filter[..1] != c.simpleChar && filter[..1] != c.regexChar && filter[..1] != c.levenChar
    requires filter[..1] != c.srchChar && filter[..1] != c.beginChar
    requires ModeWithoutLetter(c, mode)
    ensures ReadHead(c, threshold, filter)
         == var positive := !(c.overrideSearch != 0 && c.invertResult);
            if mode == 0 then Never
            else if mode == 3 && 49 <= filter[0] <= 57
            then Query(positive, 3, filter[0] as int - 48, filter[1..]) else Query(positive, mode, threshold, filter)
  {
    assert First(filter) == filter[..1];
    hide First;
    assert ChosenMode(c, filter) == 0 && DefaultMode(c) == mode;
    hide ChosenMode, DefaultMode;
  }

  /** The empty filter shows everything, unless there is no mode for it. */
  lemma EmptyFilterIsRead(c: Config, threshold: int)
    requires c.negateChar != []
    ensures var q := ReadHead(c, threshold, []);
            if c.overrideSearch == 0 && [] !in [c.simpleChar, c.regexChar, c.levenChar, c.srchChar, c.beginChar]
            then q.Never? else q.Query? && q.body == []
  {
  }

  lemma DigitIsReadBack(mode: int, threshold: int, positive: bool, digit: WString, body: WString)
    requires digit == [] || (mode == 3 && |digit| == 1 && StartsWithDigit(digit))
    requires mode == 3 && digit == [] ==> !StartsWithDigit(body)
    ensures ReadDigit(mode, threshold, positive, digit + body)
            == Query(positive, mode, if digit == [] then threshold else digit[0] as int - '0' as int, body)
  {
    if digit == [] {
      assert digit + body == body;
    } else {
      assert (digit + body)[1..] == body;
    }
  }

  lemma ModeIsChosen(c: Config, f: WString, mode: int)
    requires HeadLettersDiffer(c) && 1 <= mode <= 5 && First(f) == ModeChar(c, mode) != []
    ensures ChosenMode(c, f) == mode
  {
    assert ModeChar(c, 1) == c.simpleChar && ModeChar(c, 2) == c.regexChar && ModeChar(c, 3) == c.levenChar;
    assert ModeChar(c, 4) == c.beginChar && ModeChar(c, 5) == c.srchChar;
  }

  function SceneFor(c: Config, q: Query, name: WString, usable: bool, groups: seq<seq<nat>>, plugin: Wdx.Plugin,
                    file: WString): Scene
    requires q.Query?
  {
    Scene(c.search, q.mode, q.threshold, c.matchBeginning || q.mode == 4, c.andSep, c.orSep, c.wdxSep,
          if q.mode != 2 && !c.search.caseSensitive then c.search.lower(name) else name,
          usable, groups, plugin, file)
  }

  /** Whether a file is shown. A filter that is all head shows everything. */
  ghost predicate Shown(c: Config, q: Query, name: WString, usable: bool, groups: seq<seq<nat>>, plugin: Wdx.Plugin,
                        file: WString)
  {
    q.Query? && (q.body == [] || FilterHolds(SceneFor(c, q, name, usable, groups, plugin, file), q.body) == q.positive)
  }

  /**
   One word, without plugin fields, on the letters: in simple search it is read in the name somewhere, or at the
   beginning if that is set; in begin mode always at the beginning; in scattered search in order. Without case
   sensitivity both are lower-cased first. Regular expressions see both as they are.
   */
  lemma OneWordIsShown(c: Config, q: Query, name: WString, groups: seq<seq<nat>>, plugin: Wdx.Plugin, file: WString)
    requires q.Query? && q.positive && q.body != []
    requires c.andSep !in q.body && c.orSep !in q.body && c.wdxSep !in q.body
    ensures var s := c.search;
            var word := if s.caseSensitive then q.body else s.lower(q.body);
            var text := if s.caseSensitive then name else s.lower(name);
            var shown := Shown(c, q, name, false, groups, plugin, file);
            && (q.mode == 1 ==> shown == ReadTogether(s.pinyin, word, text, c.matchBeginning))
            && (q.mode == 4 ==> shown == ReadsAt(s.pinyin, word, text, 0))
            && (q.mode == 5 ==> shown == ReadApart(s.pinyin, word, text, c.matchBeginning))
            && (q.mode == 2 ==> shown == s.regex(q.body, name, c.matchBeginning))
  {
    var x := SceneFor(c, q, name, false, groups, plugin, file);
    OneWordHolds(x, q.body);
    FoundMeans(x.search, q.body, x.name, q.mode, q.threshold, x.anchorFirst);
    hide FilterHolds, Found, ReadsAt, ReadApart;
  }

  /** The filter and the file as they stand in the settings. */
  ghost predicate Sets(c: Config, q: Query, name: WString, x: Scene)
    requires q.Query?
  {
    && x.search == c.search && x.mode == q.mode && x.threshold == q.threshold
    && x.anchorFirst == (c.matchBeginning || q.mode == 4)
    && x.name == (if c.search.caseSensitive || q.mode == 2 then name else c.search.lower(name))
  }

  /**
   A whole filter: parts, alternatives and words are composed with the separators of the settings. It shows the file if
   every part that is not empty has an alternative whose words are all found; the reverse if it is a negative one.
   */
  lemma ShownMeans(c: Config, q: Query, name: WString, usable: bool, groups: seq<seq<nat>>, plugin: Wdx.Plugin,
                   file: WString, x: Scene, parts: seq<WString>, alternatives: seq<seq<WString>>,
                   words: seq<seq<seq<WString>>>)
    requires q.Query? && q.body != [] && Sets(c, q, name, x)
    requires x.usable == usable && x.groups == groups && x.plugin == plugin && x.file == file
    requires Composes(parts, c.wdxSep, q.body) && |alternatives| == |words| == |parts|
    requires forall k :: 0 <= k < |parts| ==>
               Composes(alternatives[k], c.orSep, parts[k]) && |words[k]| == |alternatives[k]|
    requires forall k, a :: 0 <= k < |parts| && 0 <= a < |alternatives[k]| ==>
               Composes(words[k][a], c.andSep, alternatives[k][a])
    ensures Shown(c, q, name, usable, groups, plugin, file) <==>
              q.positive == forall k :: 0 <= k < |parts| ==>
                              parts[k] == [] || exists a :: 0 <= a < |words[k]| && AllFound(x, k, words[k][a])
  {
    hide AllFound, FilterHolds, Composes, KeepsLength, FoundSomewhere;
    var y := SceneFor(c, q, name, usable, groups, plugin, file);
    FilterMeans(y, q.body, parts, alternatives, words);
    forall k: nat, ws ensures AllFound(x, k, ws) <==> AllFound(y, k, ws) {
      SameWords(x, y, k, ws);
    }
  }

  lemma SameWords(x: Scene, y: Scene, k: nat, words: seq<WString>)
    requires x.search == y.search && x.mode == y.mode && x.threshold == y.threshold && x.anchorFirst == y.anchorFirst
    requires x.name == y.name && x.usable == y.usable && x.groups == y.groups
    requires x.plugin == y.plugin && x.file == y.file
    ensures AllFound(x, k, words) <==> AllFound(y, k, words)
  {
    hide Found, KeepsLength, Wdx.Value;
    forall word, first ensures FoundSomewhere(x, k, word, first) <==> FoundSomewhere(y, k, word, first) {
    }
    hide FoundSomewhere;
  }

  lemma OneWordHolds(x: Scene, word: WString)
    requires word != [] && x.andSep !in word && x.orSep !in word && x.wdxSep !in word && !x.usable
    ensures FilterHolds(x, word) <==> Found(x.search, word, x.name, x.mode, x.threshold, x.anchorFirst)
  {
    OnePiece(word, x.wdxSep);
    OnePiece(word, x.orSep);
    OnePiece(word, x.andSep);
    FilterMeans(x, word, [word], [[word]], [[[word]]]);
    assert AllFound(x, 0, [[[word]]][0][0]) <==> FoundSomewhere(x, 0, word, true);
    hide Composes, Found;
  }

  lemma OnePiece(word: WString, sep: WChar)
    requires word != [] && sep !in word
    ensures Composes([word], sep, word)
  {
    assert word[|word| - 1] in word;
    assert [word][1..] == [] && word + [sep] + [] == word + [sep];
  }

  /** A filter that is all head shows every file. */
  lemma HeadAloneShowsAll(c: Config, q: Query, name: WString, usable: bool, groups: seq<seq<nat>>,
                          plugin: Wdx.Plugin, file: WString)
    requires q.Query? && q.body == []
    ensures Shown(c, q, name, usable, groups, plugin, file)
  {
  }

  /** Without case sensitivity names that lower-case alike get the same answer, except from regular expressions. */
  lemma NameCaseIsIgnored(c: Config, q: Query, name: WString, other: WString, usable: bool, groups: seq<seq<nat>>,
                          plugin: Wdx.Plugin, file: WString)
    requires !c.search.caseSensitive && c.search.lower(name) == c.search.lower(other) && (q.Query? ==> q.mode != 2)
    ensures Shown(c, q, name, usable, groups, plugin, file) == Shown(c, q, other, usable, groups, plugin, file)
  {
    hide FilterHolds, KeepsLength;
  }

  /** With case sensitivity the answer is the same whatever lower-casing would do to filters and names. */
  lemma CaseIsKept(c: Config, d: Config, q: Query, name: WString, usable: bool, groups: seq<seq<nat>>,
                   plugin: Wdx.Plugin, file: WString)
    requires c.search.caseSensitive && d == c.(search := d.search)
    requires d.search == c.search.(lower := d.search.lower)
    ensures Shown(c, q, name, usable, groups, plugin, file) == Shown(d, q, name, usable, groups, plugin, file)
  {
    if q.Query? {
      var x := SceneFor(c, q, name, usable, groups, plugin, file);
      var y := SceneFor(d, q, name, usable, groups, plugin, file);
      assert y == x.(search := y.search);
      hide FilterHolds, KeepsLength;
      SettingsAlike(x, y, q.body);
      SettingsAlike(y, x, q.body);
    }
  }

  lemma SettingsAlike(x: Scene, y: Scene, filter: WString)
    requires x.search.caseSensitive && y == x.(search := y.search) && y.search == x.search.(lower := y.search.lower)
    ensures FilterHolds(x, filter) ==> FilterHolds(y, filter)
  {
    forall word, anchored, part | WordFound(x, part, word, anchored) ensures WordFound(y, part, word, anchored) {
      FilterCaseIsKept(x.search, y.search, word, x.name, x.mode, x.threshold, anchored);
      forall g | FoundInField(x, word, g) ensures FoundInField(y, word, g) {
        FilterCaseIsKept(x.search, y.search, word, Wdx.Value(x.plugin, true, x.file, g), x.mode, x.threshold, false);
      }
    }
    hide KeepsLength;
    FilterIsMonotone(x, y, filter);
  }

  /** What finds no fewer words shows no fewer files. */
  lemma FilterIsMonotone(x: Scene, y: Scene, filter: WString)
    requires y.andSep == x.andSep && y.orSep == x.orSep && y.wdxSep == x.wdxSep && y.anchorFirst == x.anchorFirst
    requires forall word, anchored, part: nat ::
               WordFound(x, part, word, anchored) ==> WordFound(y, part, word, anchored)
    ensures FilterHolds(x, filter) ==> FilterHolds(y, filter)
  {
    hide WordFound, Pieces;
    forall part, a | AlternativeHolds(x, part, a) ensures AlternativeHolds(y, part, a) {
      var words := Pieces(a, x.andSep);
      assert forall i :: 0 <= i < |words| ==> (WordHolds(x, part, words, i) ==> WordHolds(y, part, words, i));
    }
    assert forall part, text :: PartHolds(x, part, text) ==> PartHolds(y, part, text);
  }

  /** The part of the matcher that lives from one comparison to the next. */
  class Matcher {
    var threshold: int
    const groups: seq<seq<nat>>
    const wdx: Wdx.Wdx

    constructor (groups: seq<seq<nat>>, wdx: Wdx.Wdx)
      ensures threshold == 1 && this.groups == groups && this.wdx == wdx
    {
      threshold, this.groups, this.wdx := 1, groups, wdx;
    }

    /** Announces the file to the plugins, if they may be asked at all. */
    method Announce(x: Scene)
      requires wdx.Valid(x.search.caseSensitive) && x.plugin == wdx.plugin
      requires forall k, i :: 0 <= k < |x.groups| && 0 <= i < |x.groups[k]| ==> x.groups[k][i] < wdx.size
      modifies wdx
      ensures Ready(x, wdx)
    {
      if x.usable { wdx.Create(x.file, x.search.caseSensitive); }
    }

    method MatchBody(x: Scene, positive: bool, body: WString) returns (shown: bool)
      requires |body| <= Levenshtein.MAX_INT
      requires wdx.Valid(x.search.caseSensitive) && x.plugin == wdx.plugin
      requires forall k, i :: 0 <= k < |x.groups| && 0 <= i < |x.groups[k]| ==> x.groups[k][i] < wdx.size
      modifies wdx
      ensures wdx.Valid(x.search.caseSensitive)
      ensures shown == (body == [] || FilterHolds(x, body) == positive)
    {
      hide Wdx.Wdx.Valid, FilterHolds;
      Announce(x);
      if body == [] { return true; }
      var holds := MatchFilter(x, wdx, body);
      return holds == positive;
    }

    /** One comparison, from the negation letter on. A threshold read from a filter stays for later filters. */
    method Match(c: Config, filter: WString, name: WString, file: WString, attributesKnown: bool) returns (shown: bool)
      requires |filter| <= Levenshtein.MAX_INT
      requires wdx.Valid(c.search.caseSensitive)
      requires forall k, i :: 0 <= k < |groups| && 0 <= i < |groups[k]| ==> groups[k][i] < wdx.size
      modifies this, wdx
      ensures wdx.Valid(c.search.caseSensitive)
      ensures var q := ReadHead(c, old(threshold), filter);
              && shown == Shown(c, q, name, wdx.size != 0 && attributesKnown, groups, wdx.plugin, file)
              && threshold == (if q.Query? then q.threshold else old(threshold))
    {
      hide Wdx.Wdx.Valid, FilterHolds, ReadHead;
      var q := ReadHead(c, threshold, filter);
      if q.Never? { return false; }
      var x := SceneFor(c, q, name, wdx.size != 0 && attributesKnown, groups, wdx.plugin, file);
      threshold := q.threshold;
      shown := MatchBody(x, q.positive, q.body);
    }
  }

  // ---- negation ----

  /** The filter as it reads when no negation letter is looked for. */
  function PlainReading(c: Config, threshold: int, filter: WString): Query {
    ReadMode(c, threshold, !(c.overrideSearch != 0 && c.invertResult), filter)
  }

  lemma ReadNegated(c: Config, threshold: int, filter: WString)
    requires |c.negateChar| == 1
    ensures ReadHead(c, threshold, c.negateChar + filter)
         == if filter == [] then Never else ReadMode(c, threshold, c.overrideSearch != 0 && c.invertResult, filter)
  {
    var g := c.negateChar + filter;
    assert First(g) == c.negateChar && Rest(g) == filter;
    hide ReadMode;
  }

  lemma ModePolarity(c: Config, threshold: int, positive: bool, f: WString)
    ensures var q := ReadMode(c, threshold, positive, f);
            && (q.Query? ==> q.positive == positive)
            && ReadMode(c, threshold, !positive, f) == if q.Query? then q.(positive := !positive) else Never
  {
    hide ChosenMode, DefaultMode;
  }

  /**
   A negation letter in front of any filter. Alone it shows nothing. Otherwise it flips the answer of the filter's plain
   reading exactly when something follows the filter's head.
   */
  lemma NegationIsComplement(c: Config, threshold: int, filter: WString, name: WString,
                             usable: bool, groups: seq<seq<nat>>, plugin: Wdx.Plugin, file: WString)
    requires |c.negateChar| == 1
    ensures var q, n := PlainReading(c, threshold, filter), ReadHead(c, threshold, c.negateChar + filter);
            if filter == [] then n.Never?
            else (Shown(c, n, name, usable, groups, plugin, file) != Shown(c, q, name, usable, groups, plugin, file)
                  <==> q.Query? && q.body != [])
  {
    ReadNegated(c, threshold, filter);
    ModePolarity(c, threshold, c.overrideSearch != 0 && c.invertResult, filter);
    hide ReadHead, ReadMode, FilterHolds;
  }

  /**
   The plain reading is the filter's own unless that begins with a negation letter already. Then the letter in front
   is the one that counts and the old one becomes part of the filter: a second negation does not undo the first.
   */
  lemma NegationIsNotUndone(c: Config, threshold: int, filter: WString)
    requires |c.negateChar| == 1
    ensures First(filter) != c.negateChar ==> ReadHead(c, threshold, filter) == PlainReading(c, threshold, filter)
    ensures var q, n := ReadHead(c, threshold, filter), ReadHead(c, threshold, c.negateChar + filter);
            First(filter) == c.negateChar && q.Query? && n.Query? ==> n.positive == q.positive
  {
    ReadNegated(c, threshold, filter);
    ModePolarity(c, threshold, c.overrideSearch != 0 && c.invertResult, filter);
    ModePolarity(c, threshold, c.overrideSearch != 0 && c.invertResult, Rest(filter));
    hide ReadMode;
  }
}
