/**
 Edit scripts between a filter and a stretch of a file name, and the dynamic programme that
 finds the cheapest one.
 */
module Levenshtein {
  import opened Text
  import opened Utils

  /** One edit: use up a letter of each side, a letter of one side, or two crossed letters of each side. */
  datatype Op = Pair | SkipName | SkipFilter | Swap

  /** A script begins at some place of the name and at the first filter letter. */
  datatype Script = Start(from: nat) | Then(before: Script, op: Op)
  {
    function NamePos(): nat {
      match this
      case Start(k) => k
      case Then(s, op) => s.NamePos() + (if op.SkipFilter? then 0 else if op.Swap? then 2 else 1)
    }

    function FilterPos(): nat {
      match this
      case Start(_) => 0
      case Then(s, op) => s.FilterPos() + (if op.SkipName? then 0 else if op.Swap? then 2 else 1)
    }
  }

  /** Letters i, i+1 of the name are filter letters j+1, j, and neither pair touches the first letter. */
  predicate Crossed(t: Task, i: nat, j: nat) {
    && 1 <= i && i + 2 <= |t.name|
    && 1 <= j && j + 2 <= |t.filter|
    && Same(t, i, j + 1) && Same(t, i + 1, j)
  }

  /** The script stays inside both strings, swaps only crossed letters, and begins at 0 when anchored. */
  predicate Fits(t: Task, s: Script) {
    && s.NamePos() <= |t.name|
    && s.FilterPos() <= |t.filter|
    && match s
       case Start(k) => t.anchored ==> k == 0
       case Then(before, op) =>
         Fits(t, before) && (op.Swap? ==> Crossed(t, before.NamePos(), before.FilterPos()))
  }

  /** Every edit costs one, except a pair of letters that stand for each other. */
  function Cost(t: Task, s: Script): nat
    requires Fits(t, s)
  {
    match s
    case Start(_) => 0
    case Then(before, op) => Cost(t, before) + if op.Pair? then PairCost(t, before.NamePos(), before.FilterPos()) else 1
  }

  /** A script that uses up the whole filter; where it stops in the name is free. */
  predicate Aligns(t: Task, s: Script) {
    Fits(t, s) && s.FilterPos() == |t.filter|
  }

  /** The filter can be turned into a stretch of the name with at most k edits. */
  ghost predicate WithinDistance(t: Task, k: int) {
    exists s :: Aligns(t, s) && Cost(t, s) <= k
  }

  function PairCost(t: Task, i: nat, j: nat): nat
    requires i < |t.name| && j < |t.filter|
  {
    if Same(t, i, j) then 0 else 1
  }

  /** The price of swapping letters i-2 and i-1 of the name onto the filter: mismatches are charged, not refused. */
  function SwapCost(t: Task, i: nat, j: nat): nat
    requires 2 <= i <= |t.name| && 2 <= j <= |t.filter|
  {
    1 + PairCost(t, i - 2, j - 1) + PairCost(t, i - 1, j - 2)
  }

  /** The recurrence behind the matrix. */
  function Cell(t: Task, i: nat, j: nat): nat
    requires i <= |t.name| && j <= |t.filter|
    decreases i + j
  {
    if i == 0 then j
    else if j == 0 then if t.anchored then i else 0
    else
      var plain := Plain(t, i, j);
      if i > 2 && j > 2 then Min(plain, Cell(t, i - 2, j - 2) + SwapCost(t, i, j)) else plain
  }

  function Plain(t: Task, i: nat, j: nat): nat
    requires 0 < i <= |t.name| && 0 < j <= |t.filter|
    decreases i + j, 0
  {
    Min(Cell(t, i - 1, j) + 1, Min(Cell(t, i, j - 1) + 1, Cell(t, i - 1, j - 1) + PairCost(t, i - 1, j - 1)))
  }

  /** No script reaches a cell for less than the matrix says. */
  lemma {:induction false} CellIsLowerBound(t: Task, s: Script)
    requires Fits(t, s)
    ensures Cell(t, s.NamePos(), s.FilterPos()) <= Cost(t, s)
  {
    match s
    case Start(_) =>
    case Then(before, _) => CellIsLowerBound(t, before);
  }

  /** Charging for a mismatched swap never lowers a cell: two pairs cost no more. */
  lemma {:induction false} MismatchedSwapIsUseless(t: Task, i: nat, j: nat)
    requires 2 < i <= |t.name| && 2 < j <= |t.filter|
    requires !(Same(t, i - 2, j - 1) && Same(t, i - 1, j - 2))
    ensures Cell(t, i, j) == Plain(t, i, j) <= Cell(t, i - 2, j - 2) + SwapCost(t, i, j)
  {
    assert Cell(t, i - 1, j - 1) <= Plain(t, i - 1, j - 1) <= Cell(t, i - 2, j - 2) + 1;
  }

  /** Some script reaches the cell for exactly what the matrix says. */
  lemma {:induction false} CellIsReached(t: Task, i: nat, j: nat) returns (s: Script)
    requires i <= |t.name| && j <= |t.filter|
    ensures Fits(t, s) && s.NamePos() == i && s.FilterPos() == j && Cost(t, s) == Cell(t, i, j)
    decreases i + j
  {
    if i == 0 && j == 0 {
      s := Start(0);
    } else if i == 0 {
      var b := CellIsReached(t, i, j - 1);
      s := Then(b, SkipFilter);
    } else if j == 0 {
      if t.anchored {
        var b := CellIsReached(t, i - 1, j);
        s := Then(b, SkipName);
      } else {
        s := Start(i);
      }
    } else if i > 2 && j > 2 && Cell(t, i, j) != Plain(t, i, j) {
      if !(Same(t, i - 2, j - 1) && Same(t, i - 1, j - 2)) {
        MismatchedSwapIsUseless(t, i, j);
      }
      var b := CellIsReached(t, i - 2, j - 2);
      s := Then(b, Swap);
    } else if Cell(t, i, j) == Cell(t, i - 1, j) + 1 {
      var b := CellIsReached(t, i - 1, j);
      s := Then(b, SkipName);
    } else if Cell(t, i, j) == Cell(t, i, j - 1) + 1 {
      var b := CellIsReached(t, i, j - 1);
      s := Then(b, SkipFilter);
    } else {
      var b := CellIsReached(t, i - 1, j - 1);
      s := Then(b, Pair);
    }
  }

  /** The n letters of the filter from j on are those of the name from i on. */
  predicate SameLetters(t: Task, i: nat, j: nat, n: nat) {
    i + n <= |t.name| && j + n <= |t.filter| && forall k :: i <= k < i + n ==> t.name[k] == t.filter[k - i + j]
  }

  /** Pairing off n more equal letters costs nothing. */
  lemma {:induction false} PairsAreFree(t: Task, s: Script, n: nat) returns (r: Script)
    requires Fits(t, s) && SameLetters(t, s.NamePos(), s.FilterPos(), n)
    ensures Fits(t, r) && r.NamePos() == s.NamePos() + n && r.FilterPos() == s.FilterPos() + n
    ensures Cost(t, r) == Cost(t, s)
  {
    hide Cost, Fits, SameLetters, Script.NamePos, Script.FilterPos;
    if n == 0 {
      r := s;
    } else {
      OneShorter(t, s.NamePos(), s.FilterPos(), n);
      var before := PairsAreFree(t, s, n - 1);
      FreePair(t, before);
      r := Then(before, Pair);
    }
  }

  lemma OneShorter(t: Task, i: nat, j: nat, n: nat)
    requires n > 0 && SameLetters(t, i, j, n)
    ensures SameLetters(t, i, j, n - 1) && SameLetters(t, i + (n - 1), j + (n - 1), 1)
  {
  }

  lemma FreePair(t: Task, s: Script)
    requires Fits(t, s) && SameLetters(t, s.NamePos(), s.FilterPos(), 1)
    ensures Fits(t, Then(s, Pair)) && Cost(t, Then(s, Pair)) == Cost(t, s)
    ensures Then(s, Pair).NamePos() == s.NamePos() + 1 && Then(s, Pair).FilterPos() == s.FilterPos() + 1
  {
  }

  /** One edit between two stretches that agree. */
  lemma EditBetween(t: Task, a: WString, u: WString, v: WString, b: WString, op: Op)
    requires t.filter == a + u + b && t.name == a + v + b
    requires |u| == (if op.SkipName? then 0 else if op.Swap? then 2 else 1)
    requires |v| == (if op.SkipFilter? then 0 else if op.Swap? then 2 else 1)
    requires op.Swap? ==> a != [] && u == [v[1], v[0]]
    ensures WithinDistance(t, 1)
  {
    SameAround(t, a, u, v, b);
    hide Cost, Fits, WithinDistance, SameLetters;
    StartFits(t);
    var s := PairsAreFree(t, Start(0), |a|);
    OneMoreEdit(t, s, op, a, u, v, b);
    var r := PairsAreFree(t, Then(s, op), |b|);
    DistanceOf(t, r);
  }

  lemma StartFits(t: Task)
    ensures Fits(t, Start(0)) && Cost(t, Start(0)) == 0
  {
  }

  lemma DistanceOf(t: Task, s: Script)
    requires Fits(t, s) && s.FilterPos() == |t.filter| && Cost(t, s) <= 1
    ensures WithinDistance(t, 1)
  {
    assert Aligns(t, s);
  }

  lemma OneMoreEdit(t: Task, s: Script, op: Op, a: WString, u: WString, v: WString, b: WString)
    requires t.filter == a + u + b && t.name == a + v + b
    requires |u| == (if op.SkipName? then 0 else if op.Swap? then 2 else 1)
    requires |v| == (if op.SkipFilter? then 0 else if op.Swap? then 2 else 1)
    requires op.Swap? ==> a != [] && u == [v[1], v[0]]
    requires Fits(t, s) && s.NamePos() == s.FilterPos() == |a| && Cost(t, s) == 0
    ensures Fits(t, Then(s, op)) && Cost(t, Then(s, op)) <= 1
    ensures Then(s, op).FilterPos() == |a| + |u| && Then(s, op).NamePos() == |a| + |v|
  {
    var n := |a|;
    if op.Swap? {
      assert t.filter[n] == u[0] && t.filter[n + 1] == u[1] && t.name[n] == v[0] && t.name[n + 1] == v[1];
    }
  }

  lemma SameAround(t: Task, a: WString, u: WString, v: WString, b: WString)
    requires t.filter == a + u + b && t.name == a + v + b
    ensures SameLetters(t, 0, 0, |a|) && SameLetters(t, |a| + |v|, |a| + |u|, |b|)
    ensures |t.filter| == |a| + |u| + |b|
  {
  }

  /** The four edits: a letter replaced, missing or added, and, away from the first letter, two neighbours exchanged. */
  predicate OneEdit(a: WString, x: WChar, y: WChar, b: WString, filter: WString, name: WString) {
    || (filter == a + [x] + b && name == a + [y] + b)
    || (filter == a + [x] + b && name == a + b)
    || (filter == a + b && name == a + [y] + b)
    || (filter == a + [x, y] + b && name == a + [y, x] + b && a != [])
  }

  /** A filter one edit away from the name is within distance one of it. */
  lemma OneEditCostsOne(t: Task, a: WString, x: WChar, y: WChar, b: WString)
    requires OneEdit(a, x, y, b, t.filter, t.name)
    ensures WithinDistance(t, 1)
  {
    hide WithinDistance;
    assert a + b == a + [] + b;
    if t.filter == a + [x] + b && t.name == a + [y] + b {
      EditBetween(t, a, [x], [y], b, Pair);
    } else if t.filter == a + [x] + b && t.name == a + b {
      EditBetween(t, a, [x], [], b, SkipFilter);
    } else if t.filter == a + b && t.name == a + [y] + b {
      EditBetween(t, a, [], [y], b, SkipName);
    } else {
      EditBetween(t, a, [x, y], [y, x], b, Swap);
    }
  }

  const MAX_INT: nat := 0x7fff_ffff

  /** d is the cheapest last-column cell among the name positions 1 to n. */
  ghost predicate CheapestUpTo(t: Task, n: nat, d: nat)
    requires n <= |t.name|
  {
    && (forall i :: 1 <= i <= n ==> d <= Cell(t, i, |t.filter|))
    && (d == MAX_INT || exists i :: 1 <= i <= n && d == Cell(t, i, |t.filter|))
  }

  /**
   The cheapest last-column cell costs what the cheapest whole alignment costs, and never more than the filter is
   long.
   */
  lemma CheapestIsOptimal(t: Task, d: nat)
    requires 0 < |t.name| && 0 < |t.filter| <= MAX_INT
    requires CheapestUpTo(t, |t.name|, d)
    ensures d <= |t.filter|
    ensures exists s :: Aligns(t, s) && Cost(t, s) == d
    ensures forall s :: Aligns(t, s) ==> d <= Cost(t, s)
  {
    var m := |t.filter|;
    FirstRowBound(t, m);
    assert d <= Cell(t, 1, m) <= m;
    if d == MAX_INT && m == MAX_INT {
      assert Cell(t, 0, m) == d;
      var s := CellIsReached(t, 0, m);
    } else {
      var i :| 1 <= i <= |t.name| && d == Cell(t, i, m);
      var s := CellIsReached(t, i, m);
    }
    forall s | Aligns(t, s) ensures d <= Cost(t, s) {
      CellIsLowerBound(t, s);
      if s.NamePos() != 0 {
        assert d <= Cell(t, s.NamePos(), m);
      }
    }
  }

  lemma {:induction false} FirstRowBound(t: Task, j: nat)
    requires 0 < |t.name| && 0 < j <= |t.filter|
    ensures Cell(t, 1, j) <= j
  {
    if j > 1 {
      FirstRowBound(t, j - 1);
    }
  }

  /** The first i cells of column j, and all of every earlier column, hold the recurrence's values. */
  ghost predicate Filled(t: Task, matrix: array2<nat>, i: nat, j: nat)
    requires matrix.Length0 == |t.name| + 1 && matrix.Length1 == |t.filter| + 1
    requires i <= matrix.Length0 && j < matrix.Length1
    reads matrix
  {
    && (forall a, b {:trigger matrix[a, b]} :: 0 <= a < matrix.Length0 && 0 <= b < j ==> matrix[a, b] == Cell(t, a, b))
    && (forall a {:trigger matrix[a, j]} :: 0 <= a < i ==> matrix[a, j] == Cell(t, a, j))
  }

  /** One step of the inner loop: the value of matrix[i][j]. */
  method ComputeCell(t: Task, matrix: array2<nat>, i: nat, j: nat) returns (cell: nat)
    requires 0 < i <= |t.name| && 0 < j <= |t.filter|
    requires matrix.Length0 == |t.name| + 1 && matrix.Length1 == |t.filter| + 1
    requires Filled(t, matrix, i, j)
    ensures cell == Cell(t, i, j)
  {
    var cost := 1;
    if t.name[i - 1] == t.filter[j - 1] || t.pinyin(t.filter[j - 1], t.name[i - 1]) { cost := 0; }
    cell := Min(matrix[i - 1, j] + 1, Min(matrix[i, j - 1] + 1, matrix[i - 1, j - 1] + cost));
    assert cell == Plain(t, i, j);
    if i > 2 && j > 2 {
      var trans := matrix[i - 2, j - 2] + 1;
      if t.name[i - 2] != t.filter[j - 1] && !t.pinyin(t.filter[j - 1], t.name[i - 2]) { trans := trans + 1; }
      if t.name[i - 1] != t.filter[j - 2] && !t.pinyin(t.filter[j - 2], t.name[i - 1]) { trans := trans + 1; }
      assert trans == Cell(t, i - 2, j - 2) + SwapCost(t, i, j);
      if cell > trans { cell := trans; }
    }
  }

  /** The borders of the matrix: an unanchored script may start anywhere in the name for free. */
  method FillBorders(t: Task, matrix: array2<nat>)
    requires matrix.Length0 == |t.name| + 1 && matrix.Length1 == |t.filter| + 1
    modifies matrix
    ensures forall a :: 0 <= a <= |t.name| ==> matrix[a, 0] == Cell(t, a, 0)
    ensures forall b :: 0 <= b <= |t.filter| ==> matrix[0, b] == Cell(t, 0, b)
  {
    for i := 0 to |t.name| + 1
      invariant forall a :: 0 <= a < i ==> matrix[a, 0] == 0
    {
      matrix[i, 0] := 0;
    }
    if t.anchored {
      for i := 1 to |t.name| + 1
        invariant matrix[0, 0] == 0
        invariant forall a :: 1 <= a < i ==> matrix[a, 0] == a
      {
        matrix[i, 0] := i;
      }
    }
    for j := 0 to |t.filter| + 1
      invariant forall a :: 0 <= a <= |t.name| ==> matrix[a, 0] == Cell(t, a, 0)
      invariant forall b :: 0 <= b < j ==> matrix[0, b] == b
    {
      matrix[0, j] := j;
    }
  }

  /** The inner loop: fills column j and, in the last column, lowers the running minimum. */
  method FillColumn(t: Task, matrix: array2<nat>, j: nat, least: nat) returns (d: nat)
    requires 0 < j <= |t.filter|
    requires matrix.Length0 == |t.name| + 1 && matrix.Length1 == |t.filter| + 1
    requires Filled(t, matrix, |t.name| + 1, j - 1)
    requires matrix[0, j] == Cell(t, 0, j) && least == MAX_INT
    modifies matrix
    ensures Filled(t, matrix, |t.name| + 1, j)
    ensures forall b :: j < b <= |t.filter| ==> matrix[0, b] == old(matrix[0, b])
    ensures if j == |t.filter| then CheapestUpTo(t, |t.name|, d) else d == least
  {
    d := least;
    for i := 1 to |t.name| + 1
      invariant forall b :: j < b <= |t.filter| ==> matrix[0, b] == old(matrix[0, b])
      invariant Filled(t, matrix, i, j)
      invariant if j < |t.filter| then d == least else CheapestUpTo(t, i - 1, d)
    {
      var cell := ComputeCell(t, matrix, i, j);
      matrix[i, j] := cell;
      if j == |t.filter| && matrix[i, j] < d { d := matrix[i, j]; }
    }
  }

  /** The modified Levenshtein distance: the least number of edits from the filter to a stretch of the name. */
  method LevenshteinDistance(t: Task) returns (d: nat)
    requires |t.filter| <= MAX_INT
    ensures d <= |t.filter|
    ensures exists s :: Aligns(t, s) && Cost(t, s) == d
    ensures forall s :: Aligns(t, s) ==> d <= Cost(t, s)
  {
    var n, m := |t.name|, |t.filter|;
    if n == 0 {
      var s := CellIsReached(t, 0, m);
      forall s | Aligns(t, s) ensures m <= Cost(t, s) { CellIsLowerBound(t, s); }
      return m;
    }
    if m == 0 {
      assert Aligns(t, Start(0)) && Cost(t, Start(0)) == 0;
      return 0;
    }
    var matrix := new nat[n + 1, m + 1];
    FillBorders(t, matrix);
    d := MAX_INT;
    for j := 1 to m + 1
      invariant forall b :: j <= b <= m ==> matrix[0, b] == Cell(t, 0, b)
      invariant Filled(t, matrix, n + 1, j - 1)
      invariant if j <= m then d == MAX_INT else CheapestUpTo(t, n, d)
    {
      d := FillColumn(t, matrix, j, d);
    }
    CheapestIsOptimal(t, d);
  }
}
