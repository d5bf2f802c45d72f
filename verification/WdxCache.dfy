/**
 The field cache in front of the content plugins: a row of values for the announced file, and
 a bounded first-in first-out store of the rows of earlier files of the same directory.
 */
module WdxCache {
  import opened Text
  import opened Split
  import opened Utils

  const BACKSLASH: WChar := 92

  // ---- what a lookup should return ----

  /** Replacement texts for single letters. */
  type Replacements = map<WChar, WString>

  /** Each letter is replaced on its own; replacement text is not looked at again. */
  function Replaced(r: Replacements, text: WString): WString {
    if text == [] then [] else (if text[0] in r then r[text[0]] else [text[0]]) + Replaced(r, text[1..])
  }

  lemma {:induction false} ReplacedSnoc(r: Replacements, text: WString, c: WChar)
    ensures Replaced(r, text + [c]) == Replaced(r, text) + if c in r then r[c] else [c]
  {
    if text != [] {
      ReplacedSnoc(r, text[1..], c);
      assert (text + [c])[1..] == text[1..] + [c];
    } else {
      assert Replaced(r, [c][1..]) == [];
    }
  }

  /** A letter goes to its replacement, or stays. */
  lemma ReplacedLetter(r: Replacements, c: WChar)
    ensures Replaced(r, [c]) == if c in r then r[c] else [c]
  {
    assert [c][1..] == [];
    assert Replaced(r, []) == [];
  }

  /** And a text is replaced stretch by stretch. */
  lemma {:induction false} ReplacedByParts(r: Replacements, a: WString, b: WString)
    ensures Replaced(r, a + b) == Replaced(r, a) + Replaced(r, b)
    decreases a
  {
    if a == [] {
      assert a + b == b;
    } else {
      ReplacedByParts(r, a[1..], b);
      assert (a + b)[1..] == a[1..] + b && (a + b)[0] == a[0];
      Associates(if a[0] in r then r[a[0]] else [a[0]], Replaced(r, a[1..]), Replaced(r, b));
    }
  }

  lemma Associates(a: WString, b: WString, c: WString)
    ensures a + (b + c) == a + b + c
  {
  }

  /** Replacement in place: the scan steps over the text it has just inserted. */
  method ReplaceChars(r: Replacements, text: WString) returns (value: WString)
    ensures value == Replaced(r, text)
  {
    value := text;
    var pos := 0;
    ghost var done := 0;
    while pos < |value|
      invariant 0 <= pos <= |value| && 0 <= done <= |text|
      invariant value[..pos] == Replaced(r, text[..done]) && value[pos..] == text[done..]
      decreases |text| - done
    {
      assert value[pos] == text[done];
      ReplacedSnoc(r, text[..done], text[done]);
      assert text[..done + 1] == text[..done] + [text[done]];
      assert text[done..][1..] == text[done + 1..];
      ghost var was := value;
      if value[pos] in r {
        var item := r[value[pos]];
        value := value[..pos] + item + value[pos + 1..];
        assert value[..pos + |item|] == was[..pos] + item;
        assert value[pos + |item|..] == was[pos..][1..];
        pos := pos + |item| - 1;
      } else {
        assert value[..pos + 1] == was[..pos] + [was[pos]];
        assert value[pos + 1..] == was[pos..][1..];
      }
      pos := pos + 1;
      done := done + 1;
    }
    assert text[..done] == text;
    assert value[..pos] == value;
  }

  lemma {:induction false} NothingReplaced(text: WString)
    ensures Replaced(map[], text) == text
  {
    if text != [] {
      NothingReplaced(text[1..]);
      assert text == [text[0]] + text[1..];
    }
  }

  /**
   The plugins, deterministic: the raw text of a field of a file, None when the plugin reports an error or no value.
   */
  datatype Plugin = Plugin(raw: (WString, nat) -> Option<WString>, lower: WString -> WString,
      replacements: Replacements)

  /** What asking the plugin directly gives, in the form the filter compares with. */
  function Value(p: Plugin, caseSensitive: bool, file: WString, n: nat): WString {
    match p.raw(file, n)
    case None => []
    case Some(text) => Replaced(p.replacements, if caseSensitive then text else p.lower(text))
  }

  /** Without case sensitivity, plugins whose texts lower-case alike have the same value. */
  lemma ValueCaseIsIgnored(p: Plugin, other: Plugin, file: WString, n: nat)
    requires other == p.(raw := other.raw)
    requires p.raw(file, n).Some? && other.raw(file, n).Some?
    requires p.lower(p.raw(file, n).value) == p.lower(other.raw(file, n).value)
    ensures Value(p, false, file, n) == Value(other, false, file, n)
  {
  }

  /**
   With case sensitivity lower-casing plays no part, and without replacements the value is the plugin's text.
   Replacement comes after lower-casing, so its text keeps its case. An error, or no value, is the empty text.
   */
  lemma ValueMeans(p: Plugin, lower: WString -> WString, setting: bool, file: WString, n: nat)
    ensures Value(p, true, file, n) == Value(p.(lower := lower), true, file, n)
    ensures p.raw(file, n).None? ==> Value(p, setting, file, n) == []
    ensures p.raw(file, n).Some? ==>
              var text := if setting then p.raw(file, n).value else p.lower(p.raw(file, n).value);
              && (p.replacements == map[] ==> Value(p, setting, file, n) == text)
              && (forall c :: text == [c] && c in p.replacements ==> Value(p, setting, file, n) == p.replacements[c])
  {
    if p.raw(file, n).Some? {
      var text := if setting then p.raw(file, n).value else p.lower(p.raw(file, n).value);
      NothingReplaced(text);
      forall c | c in p.replacements ensures Replaced(p.replacements, [c]) == p.replacements[c] {
        ReplacedLetter(p.replacements, c);
      }
      hide Replaced;
    }
  }

  // ---- the cache as a value ----

  datatype Slot = Slot(init: bool, name: WString)

  type Row = seq<Slot>

  datatype State = State(
    lastPath: WString,
    lastFile: WString,
    caseSensitive: bool,
    field: Row,
    cache: map<WString, Row>,
    order: seq<WString>)

  /** A stored row brought up to date with the slots that the current row has. */
  function Merged(row: Row, field: Row): (merged: Row)
    requires |row| == |field|
    ensures |merged| == |field|
  {
    seq(|field|, i requires 0 <= i < |field| => if field[i].init then field[i] else row[i])
  }

  function Invalidated(field: Row): (row: Row)
    ensures |row| == |field|
  {
    seq(|field|, i requires 0 <= i < |field| => field[i].(init := false))
  }

  function PathOf(file: WString): WString {
    StringSplit(file, BACKSLASH, true).0
  }

  /** Files leave the store when the directory changes. */
  function EnterDirectory(s: State, path: WString): (r: State)
    ensures RowsFit(s) ==> RowsFit(r)
    ensures r.field == s.field
  {
    if path == s.lastPath then s else s.(lastPath := path, cache := map[], order := [])
  }

  /** With more than cacheMax files stored, the one stored first leaves. */
  function Evict(s: State, cacheMax: nat): (r: State)
    ensures RowsFit(s) ==> RowsFit(r)
    ensures r.field == s.field
  {
    if |s.order| > cacheMax then s.(cache := s.cache - {s.order[0]}, order := s.order[1..]) else s
  }

  /** The current row goes to the store, merged into a row already there. */
  function Store(s: State): (r: State)
    requires RowsFit(s)
    ensures RowsFit(r) && r.field == s.field
  {
    if s.lastFile in s.cache then
      s.(cache := s.cache[s.lastFile := Merged(s.cache[s.lastFile], s.field)])
    else
      s.(cache := s.cache[s.lastFile := s.field], order := s.order + [s.lastFile])
  }

  function Retire(s: State, cacheMax: nat): (r: State)
    requires RowsFit(s)
    ensures RowsFit(r) && r.field == s.field
  {
    if s.lastFile == [] then s else Store(Evict(s, cacheMax))
  }

  /** Announcing a file. */
  function Announce(s: State, cacheMax: nat, file: WString, caseSensitive: bool): (r: State)
    requires RowsFit(s)
    ensures RowsFit(r) && |r.field| == |s.field|
  {
    var r := Retire(EnterDirectory(s, PathOf(file)), cacheMax);
    r.(field := Invalidated(r.field), lastFile := file, caseSensitive := caseSensitive)
  }

  predicate Resident(s: State, n: nat)
    requires RowsFit(s) && n < |s.field|
  {
    Stored(s, s.lastFile, n)
  }

  /** The text a lookup answers with. */
  function Answer(s: State, p: Plugin, n: nat): WString
    requires RowsFit(s) && n < |s.field|
  {
    if s.field[n].init then s.field[n].name
    else if Resident(s, n) then s.cache[s.lastFile][n].name
    else Value(p, s.caseSensitive, s.lastFile, n)
  }

  /** The state a lookup leaves behind. */
  function AfterLookup(s: State, p: Plugin, n: nat): (r: State)
    requires RowsFit(s) && n < |s.field|
    ensures RowsFit(r) && |r.field| == |s.field|
  {
    if s.field[n].init || Resident(s, n) then s
    else s.(field := s.field[n := Slot(true, Answer(s, p, n))])
  }

  // ---- invariants ----

  predicate RowsFit(s: State) {
    forall f :: f in s.cache ==> |s.cache[f]| == |s.field|
  }

  ghost predicate RowTells(row: Row, p: Plugin, setting: bool, file: WString) {
    forall n :: 0 <= n < |row| && row[n].init ==> row[n].name == Value(p, setting, file, n)
  }

  /** The stored rows belong to exactly the files in the queue, which is short and repeats nothing. */
  ghost predicate Structured(s: State, cacheMax: nat) {
    && RowsFit(s)
    && (forall f :: f in s.cache <==> f in s.order)
    && (forall i, j :: 0 <= i < j < |s.order| ==> s.order[i] != s.order[j])
    && |s.order| <= cacheMax + 1
  }

  /** Every filled slot holds what the plugin would say. */
  ghost predicate Coherent(s: State, p: Plugin, setting: bool) {
    && (forall f :: f in s.cache ==> RowTells(s.cache[f], p, setting, f))
    && (s.lastFile != [] ==> s.caseSensitive == setting)
    && (s.caseSensitive == setting ==> RowTells(s.field, p, setting, s.lastFile))
  }

  lemma EvictKeepsStructure(s: State, cacheMax: nat)
    requires Structured(s, cacheMax)
    ensures Structured(Evict(s, cacheMax), cacheMax) && |Evict(s, cacheMax).order| <= cacheMax
  {
    if |s.order| > cacheMax {
      TailWithoutFirst(s.order);
    }
  }

  lemma TailWithoutFirst(order: seq<WString>)
    requires |order| > 0 && forall i, j :: 0 <= i < j < |order| ==> order[i] != order[j]
    ensures forall f :: f in order[1..] <==> f in order && f != order[0]
    ensures var r := order[1..]; forall i, j :: 0 <= i < j < |r| ==> r[i] != r[j]
  {
    assert order == [order[0]] + order[1..];
  }

  lemma StoreKeepsStructure(s: State, cacheMax: nat)
    requires Structured(s, cacheMax) && |s.order| <= cacheMax
    ensures Structured(Store(s), cacheMax)
  {
  }

  lemma AnnounceKeepsStructure(s: State, cacheMax: nat, file: WString, cs: bool)
    requires Structured(s, cacheMax)
    ensures Structured(Announce(s, cacheMax, file, cs), cacheMax)
  {
    var a := EnterDirectory(s, PathOf(file));
    EvictKeepsStructure(a, cacheMax);
    StoreKeepsStructure(Evict(a, cacheMax), cacheMax);
    assert Structured(Retire(a, cacheMax), cacheMax);
  }

  lemma AnnounceKeepsCoherence(s: State, cacheMax: nat, p: Plugin, file: WString, setting: bool)
    requires RowsFit(s) && Coherent(s, p, setting)
    ensures Coherent(Announce(s, cacheMax, file, setting), p, setting)
  {
    hide Value;
    var a := EnterDirectory(s, PathOf(file));
    assert Coherent(a, p, setting);
    RetireKeepsRows(a, cacheMax, p, setting);
    hide Retire, EnterDirectory, PathOf;
    assert RowTells(Invalidated(a.field), p, setting, file);
  }

  lemma RetireKeepsRows(s: State, cacheMax: nat, p: Plugin, setting: bool)
    requires RowsFit(s) && Coherent(s, p, setting)
    ensures forall f :: f in Retire(s, cacheMax).cache ==> RowTells(Retire(s, cacheMax).cache[f], p, setting, f)
  {
    if s.lastFile != [] {
      StoreKeepsRows(Evict(s, cacheMax), p, setting);
    }
  }

  lemma StoreKeepsRows(s: State, p: Plugin, setting: bool)
    requires RowsFit(s) && Coherent(s, p, setting) && s.lastFile != []
    ensures forall f :: f in Store(s).cache ==> RowTells(Store(s).cache[f], p, setting, f)
  {
    hide Value;
  }

  lemma LookupKeepsAll(s: State, cacheMax: nat, p: Plugin, n: nat, setting: bool)
    requires Structured(s, cacheMax) && Coherent(s, p, setting) && n < |s.field|
    ensures Structured(AfterLookup(s, p, n), cacheMax) && Coherent(AfterLookup(s, p, n), p, setting)
    ensures s.caseSensitive == setting ==> Answer(s, p, n) == Value(p, setting, s.lastFile, n)
  {
  }

  /** The store has field n of the file. */
  predicate Stored(s: State, f: WString, n: nat)
    requires RowsFit(s) && n < |s.field|
  {
    f in s.cache && s.cache[f][n].init
  }

  /**
   Exactly what an announcement leaves in the store: a field of the file being retired, or one stored before whose
   file was neither dropped with its directory nor evicted in this step.
   */
  lemma StoredSlots(s: State, cacheMax: nat, file: WString, cs: bool, f: WString, n: nat)
    requires Structured(s, cacheMax) && n < |s.field|
    ensures Stored(Announce(s, cacheMax, file, cs), f, n) <==>
            || (f == s.lastFile != [] && s.field[n].init)
            || (Stored(s, f, n) && PathOf(file) == s.lastPath
                && !(s.lastFile != [] && |s.order| > cacheMax && f == s.order[0]))
  {
    var a := EnterDirectory(s, PathOf(file));
    if s.lastFile != [] {
      EvictedFile(a, cacheMax, f);
      StoredRow(Evict(a, cacheMax), f);
    }
  }

  lemma EvictedFile(s: State, cacheMax: nat, f: WString)
    requires Structured(s, cacheMax)
    ensures f in Evict(s, cacheMax).cache <==> f in s.cache && (|s.order| > cacheMax ==> f != s.order[0])
    ensures f in Evict(s, cacheMax).cache ==> Evict(s, cacheMax).cache[f] == s.cache[f]
  {
  }

  lemma StoredRow(s: State, f: WString)
    requires RowsFit(s)
    ensures f in Store(s).cache <==> f in s.cache || f == s.lastFile
    ensures f in s.cache && f != s.lastFile ==> Store(s).cache[f] == s.cache[f]
    ensures f == s.lastFile ==> Store(s).cache[f] == if f in s.cache then Merged(s.cache[f], s.field) else s.field
  {
  }

  // ---- whole runs ----

  datatype Op = File(file: WString) | Field(n: nat)

  function Initial(size: nat, junk: bool): State {
    State([], [], junk, seq(size, i => Slot(false, [])), map[], [])
  }

  function Step(s: State, cacheMax: nat, p: Plugin, setting: bool, op: Op): (r: State)
    requires RowsFit(s)
    ensures RowsFit(r) && |r.field| == |s.field|
  {
    match op
    case File(file) => Announce(s, cacheMax, file, setting)
    case Field(n) => if n < |s.field| then AfterLookup(s, p, n) else s
  }

  /** The state after a run of announcements and lookups; before the first announcement the case setting is unset. */
  function Run(size: nat, junk: bool, cacheMax: nat, p: Plugin, setting: bool, ops: seq<Op>): (s: State)
    ensures RowsFit(s) && |s.field| == size
  {
    if ops == [] then Initial(size, junk)
    else Step(Run(size, junk, cacheMax, p, setting, ops[..|ops| - 1]), cacheMax, p, setting, ops[|ops| - 1])
  }

  function LastAnnounced(ops: seq<Op>): Option<WString> {
    if ops == [] then None
    else match ops[|ops| - 1]
      case File(file) => Some(file)
      case Field(_) => LastAnnounced(ops[..|ops| - 1])
  }

  lemma {:induction false} RunKeepsAll(size: nat, junk: bool, cacheMax: nat, p: Plugin, setting: bool, ops: seq<Op>)
    ensures var s := Run(size, junk, cacheMax, p, setting, ops);
            && Structured(s, cacheMax) && Coherent(s, p, setting)
            && (LastAnnounced(ops).Some? ==> s.lastFile == LastAnnounced(ops).value && s.caseSensitive == setting)
  {
    if ops != [] {
      var before, op := ops[..|ops| - 1], ops[|ops| - 1];
      RunKeepsAll(size, junk, cacheMax, p, setting, before);
      var s := Run(size, junk, cacheMax, p, setting, before);
      match op
      case File(file) =>
        AnnounceKeepsStructure(s, cacheMax, file, setting);
        AnnounceKeepsCoherence(s, cacheMax, p, file, setting);
      case Field(n) =>
        if n < |s.field| { LookupKeepsAll(s, cacheMax, p, n, setting); }
    }
  }

  /** After any run, a lookup answers what the plugin says about the file announced last. */
  lemma CacheIsTransparent(size: nat, junk: bool, cacheMax: nat, p: Plugin, setting: bool, ops: seq<Op>, n: nat)
    requires LastAnnounced(ops).Some? && n < size
    ensures Answer(Run(size, junk, cacheMax, p, setting, ops), p, n) == Value(p, setting, LastAnnounced(ops).value, n)
  {
    RunKeepsAll(size, junk, cacheMax, p, setting, ops);
  }

  /** So after any run the answers of two plugins whose texts lower-case alike are the same without case sensitivity. */
  lemma LookupCaseIsIgnored(size: nat, junk: bool, cacheMax: nat, p: Plugin, other: Plugin, ops: seq<Op>, n: nat)
    requires LastAnnounced(ops).Some? && n < size && other == p.(raw := other.raw)
    requires var file := LastAnnounced(ops).value;
             && p.raw(file, n).Some? && other.raw(file, n).Some?
             && p.lower(p.raw(file, n).value) == p.lower(other.raw(file, n).value)
    ensures Answer(Run(size, junk, cacheMax, p, false, ops), p, n)
         == Answer(Run(size, junk, cacheMax, other, false, ops), other, n)
  {
    hide Value, Run, Answer;
    CacheIsTransparent(size, junk, cacheMax, p, false, ops, n);
    CacheIsTransparent(size, junk, cacheMax, other, false, ops, n);
    ValueCaseIsIgnored(p, other, LastAnnounced(ops).value, n);
  }

  /**
   With case sensitivity they do not depend on lower-casing, and without replacements are the plugin's text as it is.
   */
  lemma LookupCaseIsKept(size: nat, junk: bool, cacheMax: nat, p: Plugin, lower: WString -> WString, ops: seq<Op>,
      n: nat)
    requires LastAnnounced(ops).Some? && n < size
    ensures var q := p.(lower := lower);
            Answer(Run(size, junk, cacheMax, p, true, ops), p, n)
                == Answer(Run(size, junk, cacheMax, q, true, ops), q, n)
    ensures p.replacements == map[] ==>
              Answer(Run(size, junk, cacheMax, p, true, ops), p, n)
              == match p.raw(LastAnnounced(ops).value, n) case None => [] case Some(text) => text
  {
    hide Value, Run, Answer;
    CacheIsTransparent(size, junk, cacheMax, p, true, ops, n);
    CacheIsTransparent(size, junk, cacheMax, p.(lower := lower), true, ops, n);
    ValueMeans(p, lower, true, LastAnnounced(ops).value, n);
  }

  /** The directory of a file is what stands before its last backslash; a file without one is its own. */
  lemma DirectoryOf(directory: WString, name: WString)
    requires 92 !in name
    ensures PathOf(directory + [92] + name) == directory && PathOf(name) == name
  {
    var file := directory + [92] + name;
    var r := StringSplit(file, 92, true);
    assert file[|directory|] == 92;
    assert file == r.0 + [92] + r.1 && 92 !in r.1;
    AfterLast(directory, name, file);
    AfterLast(r.0, r.1, file);
    assert file[|r.0|] == 92 && |r.0| == |directory|;
    assert file[..|directory|] == directory && file[..|r.0|] == r.0;
  }

  lemma AfterLast(a: WString, b: WString, whole: WString)
    requires whole == a + [92] + b && 92 !in b
    ensures forall k :: |a| < k < |whole| ==> whole[k] != 92
  {
    forall k | |a| < k < |whole| ensures whole[k] != 92 {
      assert whole[k] == b[k - |a| - 1];
    }
  }

  // ---- a loss ----

  lemma RunSnoc(size: nat, junk: bool, cacheMax: nat, p: Plugin, setting: bool, ops: seq<Op>, op: Op)
    ensures Run(size, junk, cacheMax, p, setting, ops + [op])
         == Step(Run(size, junk, cacheMax, p, setting, ops), cacheMax, p, setting, op)
  {
    assert (ops + [op])[..|ops + [op]| - 1] == ops;
  }

  lemma RunNothing(size: nat, junk: bool, cacheMax: nat, p: Plugin, setting: bool)
    ensures Run(size, junk, cacheMax, p, setting, []) == Initial(size, junk)
  {
  }

  /** Only two rows are stored: the oldest, which has field n and whose file is announced, and one other. */
  predicate OldestAnnounced(s: State, oldest: WString, other: WString, n: nat)
    requires RowsFit(s) && n < |s.field|
  {
    s.lastFile == oldest && s.lastPath == PathOf(oldest) && s.order == [oldest, other] && oldest != other
        && Stored(s, oldest, n) && !s.field[n].init
  }

  lemma AnnounceNewRow(s: State, cacheMax: nat, file: WString, cs: bool)
    requires RowsFit(s) && PathOf(file) == s.lastPath && s.lastFile != [] && s.lastFile !in s.cache
        && |s.order| <= cacheMax
    ensures Announce(s, cacheMax, file, cs)
         == s.(cache := s.cache[s.lastFile := s.field], order := s.order + [s.lastFile],
               field := Invalidated(s.field), lastFile := file, caseSensitive := cs)
  {
    hide PathOf, Invalidated;
  }

  lemma AnnounceFirst(size: nat, junk: bool, file: WString, cs: bool)
    ensures Announce(Initial(size, junk), 1, file, cs)
         == State(PathOf(file), file, cs, Invalidated(Initial(size, junk).field), map[], [])
  {
    hide PathOf, Invalidated;
  }

  /** With a limit of one, the store comes to hold two rows. */
  lemma ReachOldestAnnounced(size: nat, junk: bool, p: Plugin, setting: bool, oldest: WString, other: WString, n: nat)
    requires n < size && oldest != [] && other != [] && oldest != other && PathOf(oldest) == PathOf(other)
    ensures var s := AfterLookup(Announce(Initial(size, junk), 1, oldest, setting), p, n);
            OldestAnnounced(Announce(Announce(s, 1, other, setting), 1, oldest, setting), oldest, other, n)
  {
    hide PathOf, Value, Announce, Answer;
    AnnounceFirst(size, junk, oldest, setting);
    var s1 := Announce(Initial(size, junk), 1, oldest, setting);
    FirstLookup(s1, p, n);
    var s := AfterLookup(s1, p, n);
    hide AfterLookup;
    AnnounceNewRow(s, 1, other, setting);
    var s3 := Announce(s, 1, other, setting);
    AnnounceNewRow(s3, 1, oldest, setting);
  }

  lemma FirstLookup(s: State, p: Plugin, n: nat)
    requires RowsFit(s) && n < |s.field| && !s.field[n].init && s.cache == map[]
    ensures var r := AfterLookup(s, p, n); r.field[n].init && r == s.(field := r.field)
  {
    hide Answer;
  }

  lemma TheFourSteps(size: nat, junk: bool, p: Plugin, setting: bool, oldest: WString, other: WString, n: nat)
    requires n < size
    ensures Run(size, junk, 1, p, setting, [File(oldest), Field(n), File(other), File(oldest)])
         == Announce(Announce(AfterLookup(Announce(Initial(size, junk), 1, oldest, setting), p, n), 1, other, setting),
             1, oldest, setting)
  {
    hide Run, Announce, AfterLookup;
    RunNothing(size, junk, 1, p, setting);
    RunSnoc(size, junk, 1, p, setting, [], File(oldest));
    RunSnoc(size, junk, 1, p, setting, [File(oldest)], Field(n));
    RunSnoc(size, junk, 1, p, setting, [File(oldest), Field(n)], File(other));
    RunSnoc(size, junk, 1, p, setting, [File(oldest), Field(n), File(other)], File(oldest));
    assert [] + [File(oldest)] == [File(oldest)] && [File(oldest)] + [Field(n)] == [File(oldest), Field(n)];
    assert [File(oldest), Field(n)] + [File(other)] == [File(oldest), Field(n), File(other)];
    assert [File(oldest), Field(n), File(other)] + [File(oldest)]
        == [File(oldest), Field(n), File(other), File(oldest)];
  }

  /** One more announcement evicts the row that it then stores anew, without the values. */
  lemma EvictedAndRetired(s: State, oldest: WString, other: WString, next: WString, n: nat, cs: bool)
    requires Structured(s, 1) && n < |s.field| && OldestAnnounced(s, oldest, other, n)
        && PathOf(next) == PathOf(oldest) && oldest != []
    ensures var r := Announce(s, 1, next, cs); oldest in r.cache && !Stored(r, oldest, n)
  {
    hide PathOf;
    EvictedFile(s, 1, oldest);
    StoredRow(Evict(s, 1), oldest);
  }

  /**
   A file that is stored, announced and looked up again loses its values at the next announcement: it is evicted as the
   oldest and comes back with the current row, which a lookup answered from the store does not fill.
   */
  lemma EvictionForgets(size: nat, junk: bool, p: Plugin, setting: bool, oldest: WString, other: WString,
      next: WString, n: nat)
    requires n < size && oldest != [] && other != [] && oldest != other
        && PathOf(oldest) == PathOf(other) == PathOf(next)
    ensures var ops := [File(oldest), Field(n), File(other), File(oldest)] + [Field(n)];
            var s, r := Run(size, junk, 1, p, setting, ops), Run(size, junk, 1, p, setting, ops + [File(next)]);
            Stored(s, oldest, n) && oldest in r.cache && !Stored(r, oldest, n)
  {
    hide PathOf, Value, Run, Announce;
    var ops := [File(oldest), Field(n), File(other), File(oldest)];
    var s := Run(size, junk, 1, p, setting, ops);
    TheFourSteps(size, junk, p, setting, oldest, other, n);
    ReachOldestAnnounced(size, junk, p, setting, oldest, other, n);
    assert AfterLookup(s, p, n) == s;
    hide AfterLookup, OldestAnnounced;
    RunKeepsAll(size, junk, 1, p, setting, ops);
    RunSnoc(size, junk, 1, p, setting, ops, Field(n));
    RunSnoc(size, junk, 1, p, setting, ops + [Field(n)], File(next));
    EvictedAndRetired(s, oldest, other, next, n, setting);
  }

  // ---- the class ----

  class Wdx {
    const size: nat
    const cacheMax: nat
    const plugin: Plugin
    var lastPath: WString
    var lastFile: WString
    var lastCaseSensitive: bool
    var field: Row
    var cache: map<WString, Row>
    var cacheOrder: seq<WString>

    ghost function View(): State
      reads this
    {
      State(lastPath, lastFile, lastCaseSensitive, field, cache, cacheOrder)
    }

    ghost predicate Valid(setting: bool)
      reads this
    {
      |field| == size && RowsFit(View()) && Structured(View(), cacheMax) && Coherent(View(), plugin, setting)
    }

    constructor (size: nat, cacheMax: nat, plugin: Plugin, ghost setting: bool)
      ensures Valid(setting) && View() == Initial(size, lastCaseSensitive)
      ensures this.size == size && this.cacheMax == cacheMax && this.plugin == plugin
    {
      this.size, this.cacheMax, this.plugin := size, cacheMax, plugin;
      lastPath, lastFile := [], [];
      field := seq(size, i => Slot(false, []));
      cache, cacheOrder := map[], [];
    }

    method MergeIntoCache()
      requires |field| == size && RowsFit(View()) && lastFile in cache
      modifies `cache
      ensures cache == old(cache)[lastFile := Merged(old(cache)[lastFile], field)]
    {
      ghost var was := cache[lastFile];
      for i := 0 to size
        invariant lastFile in cache && |cache[lastFile]| == size
        invariant cache == old(cache)[lastFile := cache[lastFile]]
        invariant forall k :: 0 <= k < size ==> cache[lastFile][k] == if k < i
            && field[k].init then field[k] else was[k]
      {
        if field[i].init {
          cache := cache[lastFile := cache[lastFile][i := Slot(true, field[i].name)]];
        }
      }
      assert cache[lastFile] == Merged(was, field);
    }

    /** Puts the current row into the store. */
    method WriteOldValues()
      requires |field| == size && RowsFit(View()) && lastFile != []
      modifies `cache, `cacheOrder
      ensures View() == Retire(old(View()), cacheMax)
    {
      if |cacheOrder| > cacheMax {
        cache := cache - {cacheOrder[0]};
        cacheOrder := cacheOrder[1..];
      }
      if lastFile in cache {
        MergeIntoCache();
      } else {
        cacheOrder := cacheOrder + [lastFile];
        cache := cache[lastFile := field];
      }
    }

    method InvalidateFields()
      requires |field| == size
      modifies `field
      ensures field == Invalidated(old(field))
    {
      for i := 0 to size
        invariant |field| == size
        invariant forall k :: 0 <= k < size ==> field[k] == if k < i then old(field)[k].(init := false)
            else old(field)[k]
      {
        field := field[i := field[i].(init := false)];
      }
    }

    /** The change of directory, if there is one, and the retirement of the file announced before. */
    method RetireLast(path: WString)
      requires |field| == size && RowsFit(View())
      modifies `lastPath, `cache, `cacheOrder
      ensures RowsFit(old(View())) && View() == Retire(EnterDirectory(old(View()), path), cacheMax)
    {
      if path != lastPath {
        lastPath := path;
        cache, cacheOrder := map[], [];
      }
      assert View() == EnterDirectory(old(View()), path);
      hide EnterDirectory;
      if lastFile != [] {
        WriteOldValues();
      }
    }

    method Create(file: WString, caseSensitive: bool)
      requires Valid(caseSensitive)
      modifies this
      ensures Valid(caseSensitive) && View() == Announce(old(View()), cacheMax, file, caseSensitive)
      ensures lastFile == file && lastCaseSensitive == caseSensitive
    {
      AnnounceKeepsStructure(View(), cacheMax, file, caseSensitive);
      AnnounceKeepsCoherence(View(), cacheMax, plugin, file, caseSensitive);
      hide Structured, Coherent, StringSplit, Retire, EnterDirectory, Invalidated;
      RetireLast(StringSplit(file, BACKSLASH, true).0);
      InvalidateFields();
      lastFile := file;
      lastCaseSensitive := caseSensitive;
    }

    /** Asks the plugins and puts the answer into the current row. */
    method Fetch(n: nat) returns (text: WString)
      requires n < |field|
      modifies `field
      ensures text == Value(plugin, lastCaseSensitive, lastFile, n)
      ensures field == old(field)[n := Slot(true, text)]
    {
      field := field[n := Slot(true, [])];
      var raw := plugin.raw(lastFile, n);
      if raw == None { return []; }
      var name := raw.value;
      if !lastCaseSensitive { name := plugin.lower(name); }
      if |plugin.replacements| != 0 {
        name := ReplaceChars(plugin.replacements, name);
      } else {
        NothingReplaced(name);
      }
      field := field[n := field[n].(name := name)];
      return name;
    }

    method Get(n: nat) returns (text: WString)
      requires Valid(lastCaseSensitive) && n < size
      modifies `field
      ensures Valid(lastCaseSensitive) && View() == AfterLookup(old(View()), plugin, n)
      ensures text == Value(plugin, lastCaseSensitive, lastFile, n)
    {
      LookupKeepsAll(View(), cacheMax, plugin, n, lastCaseSensitive);
      hide Structured, Coherent, Value;
      if field[n].init { return field[n].name; }
      if lastFile in cache && cache[lastFile][n].init { return cache[lastFile][n].name; }
      text := Fetch(n);
    }
  }
}
