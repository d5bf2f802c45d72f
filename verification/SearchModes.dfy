/** The search modes of the file filter and how they compare with one another. */
module SearchModes {
  import opened Text
  import opened Levenshtein

  // ---- what each mode looks for ----

  /** Filter letter j stands for the letter j places after k. */
  predicate Lines(t: Task, k: nat, j: nat) {
    j < |t.filter| && k + j < |t.name| && Same(t, k + j, j)
  }

  /** The first `upTo` filter letters stand, in order and without gaps, for the letters of the name from k on. */
  predicate StretchMatches(t: Task, k: nat, upTo: nat)
    requires upTo <= |t.filter|
  {
    k + upTo <= |t.name| && forall j :: 0 <= j < upTo ==> Lines(t, k, j)
  }

  /** The filter occurs as a stretch of the name, at its beginning when anchored. */
  ghost predicate Occurs(t: Task) {
    exists k: nat :: (t.anchored ==> k == 0) && StretchMatches(t, k, |t.filter|)
  }

  /** places[j] is where filter letter j is found; places only move forward. */
  predicate Embeds(t: Task, places: seq<nat>) {
    && |places| <= |t.filter|
    && (forall j :: 0 <= j < |places| ==> places[j] < |t.name| && Same(t, places[j], j))
    && (forall j, k :: 0 <= j < k < |places| ==> places[j] < places[k])
    && (t.anchored && |places| > 0 ==> places[0] == 0)
  }

  /** The filter is spelled by letters of the name in order, with gaps allowed. */
  ghost predicate Scattered(t: Task) {
    exists places :: Embeds(t, places) && |places| == |t.filter|
  }

  // ---- simple search ----

  predicate ExactlyAt(name: WString, filter: WString, k: nat) {
    k + |filter| <= |name| && name[k..k + |filter|] == filter
  }

  /** The library's search for the first exact occurrence; -1 when there is none. */
  function Find(name: WString, filter: WString, from: nat): (pos: int)
    requires from <= |name|
    ensures pos == -1 || (from <= pos && ExactlyAt(name, filter, pos))
    ensures forall k :: from <= k && ExactlyAt(name, filter, k) ==> 0 <= pos <= k
    decreases |name| - from
  {
    if from + |filter| > |name| then -1
    else if ExactlyAt(name, filter, from) then from
    else if from == |name| then -1
    else Find(name, filter, from + 1)
  }

  /** Some filter letter stands for a different letter of the name: only then is the match a pinyin match. */
  predicate UsesPinYin(t: Task, k: nat, upTo: nat)
    requires upTo <= |t.filter| && k + upTo <= |t.name|
  {
    exists j :: 0 <= j < upTo && t.filter[j] != t.name[k + j]
  }

  method PinYinStringMatch(t: Task) returns (found: bool)
    ensures found <==>
              exists k: nat ::
                (t.anchored ==> k == 0) && StretchMatches(t, k, |t.filter|) && UsesPinYin(t, k, |t.filter|)
  {
    if |t.filter| > |t.name| { return false; }
    for i := 0 to |t.name| - |t.filter| + 1
      invariant forall k :: 0 <= k < i && (t.anchored ==> k == 0) && StretchMatches(t, k, |t.filter|) ==>
          !UsesPinYin(t, k, |t.filter|)
    {
      if t.anchored && i != 0 { break; }
      var occurrence := false;
      for j := 0 to |t.filter|
        invariant StretchMatches(t, i, j)
        invariant occurrence <==> UsesPinYin(t, i, j)
        invariant j == |t.filter| ==> !occurrence
      {
        if t.filter[j] != t.name[i + j] {
          if !t.pinyin(t.filter[j], t.name[i + j]) {
            assert !Lines(t, i, j);
            break;
          }
          occurrence := true;
        }
        assert Lines(t, i, j);
        if j == |t.filter| - 1 && occurrence {
          assert StretchMatches(t, i, |t.filter|) && UsesPinYin(t, i, |t.filter|);
          return true;
        }
      }
    }
    return false;
  }

  lemma PlainStretchIsExact(t: Task, k: nat)
    requires StretchMatches(t, k, |t.filter|)
    ensures UsesPinYin(t, k, |t.filter|) || ExactlyAt(t.name, t.filter, k)
  {
    assert forall j :: 0 <= j < |t.filter| ==> Lines(t, k, j) && t.name[k..k + |t.filter|][j] == t.name[k + j];
  }

  /** Exact search backed by pinyin search finds the filter exactly when it occurs. */
  method SimpleSearch(t: Task) returns (found: bool)
    ensures found <==> Occurs(t)
  {
    var pos := Find(t.name, t.filter, 0);
    if t.anchored && pos != 0 { pos := -1; }
    if pos == -1 {
      found := PinYinStringMatch(t);
      forall k: nat | (t.anchored ==> k == 0) && StretchMatches(t, k, |t.filter|) ensures UsesPinYin(t, k, |t.filter|) {
        PlainStretchIsExact(t, k);
      }
    } else {
      assert StretchMatches(t, pos, |t.filter|) by {
        forall j | 0 <= j < |t.filter| ensures Lines(t, pos, j) {
          assert t.name[pos..pos + |t.filter|][j] == t.name[pos + j];
        }
      }
      found := true;
    }
  }

  // ---- scattered search ----

  /** Between one greedy place and the next (or j), no letter of the name could have been taken earlier. */
  ghost predicate Greedy(t: Task, places: seq<nat>, j: nat) {
    && Embeds(t, places)
    && (forall k :: 0 <= k < |places| ==> places[k] < j)
    && forall k: nat, i: nat :: k <= |places| && i < j && Skipped(t, places, k, i) ==> !Same(t, i, k)
  }

  /** The letter at i was a candidate for filter letter k and was not taken. */
  predicate Skipped(t: Task, places: seq<nat>, k: nat, i: nat) {
    && k < |t.filter| && i < |t.name|
    && k <= |places|
    && (k < |places| ==> i < places[k])
    && (if k == 0 then t.anchored ==> i == 0 else places[k - 1] < i)
  }

  /** Greedy places are never later than any other embedding's. */
  lemma {:induction false} GreedyIsEarliest(t: Task, greedy: seq<nat>, j: nat, places: seq<nat>)
    requires Greedy(t, greedy, j)
    requires Embeds(t, places) && |places| > 0 && places[|places| - 1] < j
    ensures |places| <= |greedy| && greedy[|places| - 1] <= places[|places| - 1]
  {
    var last := |places| - 1;
    if last > 0 {
      GreedyIsEarliest(t, greedy, j, places[..last]);
    }
    assert Same(t, places[last], last) && !Skipped(t, greedy, last, places[last]);
  }

  lemma GreedyStarts(t: Task)
    ensures Greedy(t, [], 0) && Embeds(t, [])
  {
  }

  lemma GreedyTakes(t: Task, places: seq<nat>, j: nat)
    requires Greedy(t, places, j) && |places| < |t.filter| && j < |t.name|
    requires Same(t, j, |places|) && (t.anchored && |places| == 0 ==> j == 0)
    ensures Greedy(t, places + [j], j + 1) && Embeds(t, places + [j])
  {
    var more := places + [j];
    assert forall k: nat, i: nat :: i <= j && k <= |places| && Skipped(t, more, k, i) ==>
        i < j && Skipped(t, places, k, i);
  }

  lemma GreedyPasses(t: Task, places: seq<nat>, j: nat)
    requires Greedy(t, places, j) && |places| < |t.filter| && j < |t.name|
    requires !Same(t, j, |places|)
    ensures Greedy(t, places, j + 1)
  {
  }

  /** One pass over the name, taking each filter letter at the first place that fits. */
  method ScatteredSearch(t: Task) returns (found: bool)
    ensures found <==> Scattered(t)
  {
    var n, m := |t.name|, |t.filter|;
    if m == 0 {
      assert Embeds(t, []);
      return true;
    }
    forall places | Embeds(t, places) && |places| == m ensures n > 0 && (t.anchored ==> Same(t, 0, 0)) {
      assert places[0] < n;
    }
    if n == 0 {
      return false;
    }
    hide Greedy;
    var i := 0;
    ghost var greedy: seq<nat> := [];
    GreedyStarts(t);
    for j := 0 to n
      invariant i == |greedy| < m
      invariant Greedy(t, greedy, j) && Embeds(t, greedy)
      invariant t.anchored && j > 0 ==> i > 0
    {
      if t.filter[i] == t.name[j] || t.pinyin(t.filter[i], t.name[j]) {
        GreedyTakes(t, greedy, j);
        greedy := greedy + [j];
        i := i + 1;
      } else {
        GreedyPasses(t, greedy, j);
      }
      if t.anchored && j == 0 && i == 0 {
        return false;
      }
      if i == m { return true; }
    }
    forall places | Embeds(t, places) ensures |places| < m {
      if |places| > 0 {
        GreedyIsEarliest(t, greedy, n, places);
      }
    }
    return false;
  }

  // ---- all modes ----

  /** The system's lower-casing works letter by letter, in place. */
  type Lowering = f: WString -> WString | KeepsLength(f) witness (s: WString) => s

  ghost predicate KeepsLength(f: WString -> WString) {
    forall s :: |f(s)| == |s|
  }

  datatype Settings = Settings(
    caseSensitive: bool,
    lower: Lowering,
    pinyin: PinYin,
    regex: (WString, WString, bool) -> bool)     // filter, name, anchored

  function TaskFor(s: Settings, filter: WString, name: WString, anchored: bool): Task {
    Task(s.pinyin, if s.caseSensitive then filter else s.lower(filter), name, anchored)
  }

  /** What it means for one filter word to be found in one name. */
  ghost predicate Found(s: Settings, filter: WString, name: WString, mode: int, threshold: int, anchored: bool) {
    FoundBy(TaskFor(s, filter, name, anchored), s.regex(filter, name, anchored), mode, threshold)
  }

  /** Mode by mode; regular expressions are decided elsewhere. */
  ghost predicate FoundBy(t: Task, regex: bool, mode: int, threshold: int) {
    match mode
    case 1 => Occurs(t)
    case 4 => Occurs(t)
    case 2 => regex
    case 3 => WithinDistance(t, threshold)
    case 5 => Scattered(t)
    case _ => true
  }

  method FindInFilename(s: Settings, filter: WString, name: WString, mode: int, threshold: int, anchored: bool)
      returns (found: bool)
    requires |filter| <= MAX_INT
    ensures found <==> Found(s, filter, name, mode, threshold, anchored)
  {
    var t := TaskFor(s, filter, name, anchored);
    if mode == 1 || mode == 4 {
      found := SimpleSearch(t);
      return;
    }
    if mode == 2 {
      return s.regex(filter, name, anchored);
    }
    if mode == 3 {
      var differences := LevenshteinDistance(t);
      if differences > threshold { return false; }
    }
    if mode == 5 {
      found := ScatteredSearch(t);
      return;
    }
    return true;
  }

  // ---- what the settings come to ----

  /** Without case sensitivity only the lower-cased filter matters. Regular expressions do their own comparing. */
  lemma FilterCaseIsIgnored(s: Settings, filter: WString, other: WString, name: WString,
                            mode: int, threshold: int, anchored: bool)
    requires !s.caseSensitive && s.lower(filter) == s.lower(other) && mode != 2
    ensures Found(s, filter, name, mode, threshold, anchored) <==> Found(s, other, name, mode, threshold, anchored)
  {
    hide Occurs, Scattered, WithinDistance;
  }

  /** With case sensitivity the filter is compared as it is, whatever lower-casing would do. */
  lemma FilterCaseIsKept(s: Settings, other: Settings, filter: WString, name: WString,
                         mode: int, threshold: int, anchored: bool)
    requires s.caseSensitive && other.caseSensitive && s.pinyin == other.pinyin && s.regex == other.regex
    ensures Found(s, filter, name, mode, threshold, anchored) <==> Found(other, filter, name, mode, threshold, anchored)
  {
    hide FoundBy, KeepsLength;
  }

  /** The word can be read in the name from place k on, each letter as itself or as a spelling. */
  predicate ReadsAt(pinyin: PinYin, word: WString, name: WString, k: nat) {
    k + |word| <= |name| && forall j :: 0 <= j < |word| ==> word[j] == name[k + j] || pinyin(word[j], name[k + j])
  }

  /** The word can be read in the name at these places, with anything in between. */
  predicate ReadsAlong(pinyin: PinYin, word: WString, name: WString, places: seq<nat>) {
    && |places| == |word|
    && (forall j, k :: 0 <= j < k < |places| ==> places[j] < places[k])
    && forall j :: 0 <= j < |word| ==>
         places[j] < |name| && (word[j] == name[places[j]] || pinyin(word[j], name[places[j]]))
  }

  /** The word can be read somewhere, at the beginning when anchored. */
  ghost predicate ReadTogether(pinyin: PinYin, word: WString, name: WString, anchored: bool) {
    exists k: nat :: (anchored ==> k == 0) && ReadsAt(pinyin, word, name, k)
  }

  /** The word can be read in order, from the beginning when anchored. */
  ghost predicate ReadApart(pinyin: PinYin, word: WString, name: WString, anchored: bool) {
    exists places ::
      ReadsAlong(pinyin, word, name, places) && (anchored && word != [] ==> places[0] == 0)
  }

  /** What a word finds in each mode, on the letters themselves. */
  lemma FoundMeans(s: Settings, filter: WString, name: WString, mode: int, threshold: int, anchored: bool)
    ensures var word := if s.caseSensitive then filter else s.lower(filter);
            var found := Found(s, filter, name, mode, threshold, anchored);
            && (mode == 1 || mode == 4 ==> found == ReadTogether(s.pinyin, word, name, anchored))
            && (mode == 2 ==> found == s.regex(filter, name, anchored))
            && (mode == 5 ==> found == ReadApart(s.pinyin, word, name, anchored))
            && (mode < 1 || 5 < mode ==> found)
  {
    var word := if s.caseSensitive then filter else s.lower(filter);
    OccursMeans(s.pinyin, word, name, anchored);
    ScatteredMeans(s.pinyin, word, name, anchored);
    hide Occurs, Scattered, WithinDistance, ReadTogether, ReadApart;
  }

  lemma OccursMeans(pinyin: PinYin, word: WString, name: WString, anchored: bool)
    ensures Occurs(Task(pinyin, word, name, anchored)) == ReadTogether(pinyin, word, name, anchored)
  {
    var t := Task(pinyin, word, name, anchored);
    forall k: nat ensures StretchMatches(t, k, |word|) <==> ReadsAt(pinyin, word, name, k) {
      StretchIsRead(t, k);
    }
    hide StretchMatches, ReadsAt;
  }

  lemma ScatteredMeans(pinyin: PinYin, word: WString, name: WString, anchored: bool)
    ensures Scattered(Task(pinyin, word, name, anchored)) == ReadApart(pinyin, word, name, anchored)
  {
    var t := Task(pinyin, word, name, anchored);
    forall places: seq<nat> | |places| == |word|
      ensures Embeds(t, places) <==>
                ReadsAlong(pinyin, word, name, places) && (anchored && word != [] ==> places[0] == 0)
    {
      EmbeddingIsRead(t, places);
    }
    hide Embeds;
  }

  lemma EmbeddingIsRead(t: Task, places: seq<nat>)
    requires |places| == |t.filter|
    ensures Embeds(t, places) <==>
              ReadsAlong(t.pinyin, t.filter, t.name, places) && (t.anchored && t.filter != [] ==> places[0] == 0)
  {
  }

  lemma StretchIsRead(t: Task, k: nat)
    ensures StretchMatches(t, k, |t.filter|) <==> ReadsAt(t.pinyin, t.filter, t.name, k)
  {
    if StretchMatches(t, k, |t.filter|) {
      forall j | 0 <= j < |t.filter| ensures t.filter[j] == t.name[k + j] || t.pinyin(t.filter[j], t.name[k + j]) {
        assert Lines(t, k, j);
      }
    }
  }

  /** In Levenshtein mode, whatever the case setting, a word one edit away is found with one edit allowed. */
  lemma OneEditIsFound(s: Settings, filter: WString, name: WString, a: WString, x: WChar, y: WChar, b: WString,
      anchored: bool)
    requires OneEdit(a, x, y, b, if s.caseSensitive then filter else s.lower(filter), name)
    ensures Found(s, filter, name, 3, 1, anchored)
  {
    OneEditCostsOne(TaskFor(s, filter, name, anchored), a, x, y, b);
  }

  // ---- the modes compared ----

  /** A free script pairs off equal letters only, so it reads a stretch of the name. */
  lemma {:induction false} FreeScriptIsStretch(t: Task, s: Script) returns (k: nat)
    requires Fits(t, s) && Cost(t, s) == 0
    ensures t.anchored ==> k == 0
    ensures s.NamePos() == k + s.FilterPos()
    ensures StretchMatches(t, k, s.FilterPos())
  {
    match s
    case Start(from) => k := from;
    case Then(before, op) =>
      k := FreeScriptIsStretch(t, before);
      assert Lines(t, k, before.FilterPos());
  }

  lemma {:induction false} StretchIsFreeScript(t: Task, k: nat, upTo: nat) returns (s: Script)
    requires t.anchored ==> k == 0
    requires upTo <= |t.filter| && StretchMatches(t, k, upTo)
    ensures Fits(t, s) && s.FilterPos() == upTo && s.NamePos() == k + upTo && Cost(t, s) == 0
  {
    if upTo == 0 {
      s := Start(k);
    } else {
      var before := StretchIsFreeScript(t, k, upTo - 1);
      assert Lines(t, k, upTo - 1);
      s := Then(before, Pair);
    }
  }

  /** Levenshtein search with no edits allowed is simple search. */
  lemma DistanceZeroIsSimple(t: Task)
    ensures WithinDistance(t, 0) <==> Occurs(t)
  {
    if WithinDistance(t, 0) {
      var s :| Aligns(t, s) && Cost(t, s) <= 0;
      var k := FreeScriptIsStretch(t, s);
    }
    if Occurs(t) {
      var k: nat :| (t.anchored ==> k == 0) && StretchMatches(t, k, |t.filter|);
      var s := StretchIsFreeScript(t, k, |t.filter|);
      assert Aligns(t, s);
    }
  }

  /** Whatever simple search finds, Levenshtein search at any threshold and scattered search find too. */
  lemma SimpleIsStrictest(t: Task, threshold: nat)
    ensures Occurs(t) ==> WithinDistance(t, threshold) && Scattered(t)
  {
    if Occurs(t) {
      DistanceZeroIsSimple(t);
      var s :| Aligns(t, s) && Cost(t, s) <= 0;
      assert Cost(t, s) <= threshold;
      var k: nat :| (t.anchored ==> k == 0) && StretchMatches(t, k, |t.filter|);
      var places := seq(|t.filter|, j requires 0 <= j => k + j);
      assert forall j :: 0 <= j < |places| ==> Lines(t, k, j) && places[j] == k + j;
      assert Embeds(t, places);
    }
  }
}
