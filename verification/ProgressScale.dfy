/**
 Scaling unpacked progress to packed progress: a product and a quotient of 64-bit values kept within 64 bits by
 shifting.
 */
module ProgressScale {

  const WORD: nat := 0x1_0000_0000_0000_0000
  const MAX: nat := 0x8000_0000
  const WORD32: nat := 0x1_0000_0000

  /** v shifted right k times. */
  function Shifted(v: nat, k: nat): nat {
    if k == 0 then v else Shifted(v / 2, k - 1)
  }

  function Pow2(k: nat): (p: nat)
    ensures p > 0
  {
    if k == 0 then 1 else 2 * Pow2(k - 1)
  }

  /** How many shifts bring v down to MAX. */
  function Excess(v: nat): nat {
    if v > MAX then 1 + Excess(v / 2) else 0
  }

  /** Shifts both values until the first is at most MAX, and no further. */
  method NormalizeVals(v1: nat, v2: nat) returns (w1: nat, w2: nat)
    ensures w1 == Shifted(v1, Excess(v1)) <= MAX
    ensures w2 == Shifted(v2, Excess(v1))
  {
    w1, w2 := v1, v2;
    while w1 > MAX
      invariant Shifted(v1, Excess(v1)) == Shifted(w1, Excess(w1))
      invariant Shifted(v2, Excess(v1)) == Shifted(w2, Excess(w1))
    {
      w1 := w1 / 2;
      w2 := w2 / 2;
    }
  }

  function MulDiv(c: nat, p: nat, t: nat): nat {
    c * p / (if t == 0 then 1 else t)
  }

  function Scaled(cur: nat, total: nat, pack: nat): nat {
    var k, l := Excess(pack), Excess(cur);
    MulDiv(Shifted(cur, l), Shifted(pack, k), Shifted(Shifted(total, k), l))
  }

  /** The scaled progress. */
  method MyMultDiv64(unpCur: nat, unpTotal: nat, packTotal: nat) returns (r: nat)
    requires unpCur < WORD && unpTotal < WORD && packTotal < WORD
    ensures r == Scaled(unpCur, unpTotal, packTotal) < WORD
  {
    var pack, total := NormalizeVals(packTotal, unpTotal);
    var cur;
    cur, total := NormalizeVals(unpCur, total);
    r := Quotient(cur, pack, total);
  }

  /** The last step, on normalised values: the product stays below 2^62, so 64 bits hold it. */
  method Quotient(cur: nat, pack: nat, unpTotal: nat) returns (r: nat)
    requires cur <= MAX && pack <= MAX
    ensures cur * pack < WORD && r == MulDiv(cur, pack, unpTotal) < WORD
  {
    var total := unpTotal;
    if total == 0 { total := 1; }
    ProductBound(cur, pack);
    var product := cur * pack;
    QuotientShrinks(product, total);
    r := product / total;
  }

  /** The product of two normalised values: 2^62 at most. */
  lemma ProductBound(a: nat, b: nat)
    requires a <= MAX && b <= MAX
    ensures a * b <= 0x4000_0000_0000_0000 < WORD
  {
    MulMonotone(a, MAX, b, MAX);
  }

  lemma MulMonotone(a: nat, a': nat, b: nat, b': nat)
    requires a <= a' && b <= b'
    ensures a * b <= a' * b'
  {
    assert a' * b' == a * b + (a' - a) * b + a' * (b' - b);
  }

  /** Division as the largest factor that fits. */
  lemma QuotientIsLargest(a: nat, b: nat, q: nat)
    requires b > 0
    ensures q <= a / b <==> q * b <= a
  {
    var r := a / b;
    assert a == r * b + a % b;
    assert (r + 1) * b == r * b + b;
    if q <= r {
      MulMonotone(q, r, b, b);
    } else {
      MulMonotone(r + 1, q, b, b);
    }
  }

  lemma QuotientShrinks(a: nat, b: nat)
    requires b > 0
    ensures a / b <= a
  {
    QuotientIsLargest(a, b, a + 1);
    MulMonotone(a + 1, a + 1, 1, b);
  }

  // ---- shifting ----

  lemma {:induction false} ShiftedBounds(v: nat, k: nat)
    ensures Shifted(v, k) * Pow2(k) <= v < (Shifted(v, k) + 1) * Pow2(k)
  {
    if k > 0 {
      ShiftedBounds(v / 2, k - 1);
      Doubled(Shifted(v / 2, k - 1), Pow2(k - 1), v);
    }
  }

  lemma Doubled(s: nat, q: nat, v: nat)
    requires s * q <= v / 2 < (s + 1) * q
    ensures s * (2 * q) <= v < (s + 1) * (2 * q)
  {
    assert s * (2 * q) == 2 * (s * q) && (s + 1) * (2 * q) == 2 * ((s + 1) * q);
  }

  lemma {:induction false} ShiftedMonotone(v: nat, w: nat, k: nat)
    requires v <= w
    ensures Shifted(v, k) <= Shifted(w, k)
  {
    if k > 0 { ShiftedMonotone(v / 2, w / 2, k - 1); }
  }

  lemma {:induction false} ShiftsAdd(v: nat, k: nat, l: nat)
    ensures Shifted(Shifted(v, k), l) == Shifted(v, k + l)
  {
    if k > 0 { ShiftsAdd(v / 2, k - 1, l); }
  }

  /** One shift less would still be too much. */
  lemma {:induction false} ExcessIsLeast(v: nat)
    ensures Shifted(v, Excess(v)) <= MAX
    ensures Excess(v) > 0 ==> MAX < 2 * (Shifted(v, Excess(v)) + 1) && MAX / 2 <= Shifted(v, Excess(v))
  {
    if v > MAX { ExcessIsLeast(v / 2); }
  }

  lemma {:induction false} ExcessMonotone(v: nat, w: nat)
    requires v <= w
    ensures Excess(v) <= Excess(w)
  {
    if v > MAX { ExcessMonotone(v / 2, w / 2); }
  }

  lemma {:induction false} ShiftAtLeastHalves(v: nat, k: nat)
    requires k > 0
    ensures 2 * Shifted(v, k) <= v
  {
    ShiftedShrinks(v / 2, k - 1);
  }

  lemma {:induction false} ShiftedShrinks(v: nat, k: nat)
    ensures Shifted(v, k) <= v
  {
    if k > 0 { ShiftedShrinks(v / 2, k - 1); }
  }

  // ---- what the scaled progress is worth ----

  /** Without large operands nothing is shifted and the quotient is exact; a total of zero counts as one. */
  lemma ExactWhenSmall(cur: nat, total: nat, pack: nat)
    requires cur <= 0x8000_0000 && pack <= 0x8000_0000
    ensures Scaled(cur, total, pack) == if total == 0 then cur * pack else cur * pack / total
  {
  }

  /** Progress that is not past the end never shows more than twice the packed size. */
  lemma AtMostTwice(cur: nat, total: nat, pack: nat)
    requires cur <= total
    ensures Scaled(cur, total, pack) <= 2 * pack
  {
    var k, l := Excess(pack), Excess(cur);
    var p, c, whole := Shifted(pack, k), Shifted(cur, l), Shifted(total, l);
    ShiftsAdd(total, k, l);
    ShiftsAdd(total, l, k);
    ShiftedMonotone(cur, total, l);
    ShiftedBounds(pack, k);
    ShiftedBounds(whole, k);
    TwiceBound(c, whole, Shifted(whole, k), p, pack, Pow2(k));
  }

  lemma TwiceBound(c: nat, whole: nat, t: nat, p: nat, pack: nat, q: nat)
    requires c <= whole < (t + 1) * q && p * q <= pack
    ensures c * p / (if t == 0 then 1 else t) <= 2 * pack
  {
    MulMonotone(c, (t + 1) * q, p, p);
    assert (t + 1) * q * p == (t + 1) * (p * q);
    MulMonotone(t + 1, t + 1, p * q, pack);
    assert c * p <= (t + 1) * pack;
    if t > 0 {
      MulMonotone(t + 1, 2 * t, pack, pack);
      assert c * p <= t * (2 * pack);
      DivBound(c * p, t, 2 * pack);
    }
  }

  lemma DivBound(a: nat, b: nat, q: nat)
    requires b > 0 && a <= b * q
    ensures a / b <= q
  {
    QuotientIsLargest(a, b, q + 1);
    assert (q + 1) * b == b * q + b;
  }

  // ---- up to which packed sizes the scale holds ----

  /** Progress that is not past the end never shows more than the packed size. */
  ghost predicate NeverOvershoots(pack: nat) {
    forall cur: nat, total: nat {:trigger Scaled(cur, total, pack)} :: cur <= total < WORD ==>
        Scaled(cur, total, pack) <= pack
  }

  /** More unpacked never shows as less packed, although the two sides may be shifted differently. */
  ghost predicate NeverGoesBack(pack: nat) {
    forall cur: nat, cur': nat, total: nat {:trigger Scaled(cur, total, pack), Scaled(cur', total, pack)} ::
      cur <= cur' <= total < WORD ==> Scaled(cur, total, pack) <= Scaled(cur', total, pack)
  }

  /** The first packed size that is shifted more than thirty times, a little above 2^61. */
  const HUGE: nat := (MAX + 1) * 0x4000_0000

  /** The packed size is respected exactly when it is not shifted at all, or shifted more than thirty times. */
  lemma NeverOvershootsExactlyWhen(pack: nat)
    ensures NeverOvershoots(pack) <==> pack <= 0x8000_0000 || 0x2000_0000_4000_0000 <= pack
  {
    var k := Excess(pack);
    ExcessOfHuge(pack);
    if k == 0 || 31 <= k {
      forall cur: nat, total: nat | cur <= total ensures Scaled(cur, total, pack) <= pack {
        if k == 0 { AtMostPacked(cur, total, pack); } else { ManyShiftsStayBelow(cur, total, pack); }
      }
    } else {
      FewShiftsOvershoot(pack);
    }
  }

  /** The progress never goes back exactly for packed sizes that are shifted at most thirty times. */
  lemma NeverGoesBackExactlyWhen(pack: nat)
    ensures NeverGoesBack(pack) <==> pack < 0x2000_0000_4000_0000
  {
    ExcessOfHuge(pack);
    if Excess(pack) <= 30 {
      forall cur: nat, cur': nat, total: nat | cur <= cur' <= total
        ensures Scaled(cur, total, pack) <= Scaled(cur', total, pack)
      {
        FewShiftsAreMonotone(cur, cur', total, pack);
      }
    } else {
      ManyShiftsGoBack(pack);
    }
  }

  /** k shifts are enough exactly below (MAX + 1) * 2^k. */
  lemma {:induction false} ExcessAtMost(v: nat, k: nat)
    ensures Excess(v) <= k <==> v < (MAX + 1) * Pow2(k)
  {
    if v > MAX && k > 0 {
      ExcessAtMost(v / 2, k - 1);
      var b := (MAX + 1) * Pow2(k - 1);
      assert (MAX + 1) * Pow2(k) == 2 * b;
    } else {
      MulMonotone(MAX + 1, MAX + 1, 1, Pow2(k));
    }
  }

  lemma ExcessOfHuge(pack: nat)
    ensures Excess(pack) <= 30 <==> pack < HUGE
    ensures Excess(pack) == 0 <==> pack <= MAX
  {
    ExcessAtMost(pack, 30);
    Pow2Of30();
  }

  lemma Pow2Of30()
    ensures Pow2(30) == 0x4000_0000
  {
    assert Pow2(10) == 0x400;
    Pow2Adds(10, 10);
    Pow2Adds(10, 20);
  }

  lemma {:induction false} Pow2Adds(k: nat, l: nat)
    ensures Pow2(k + l) == Pow2(k) * Pow2(l)
  {
    if k > 0 {
      Pow2Adds(k - 1, l);
      TwiceProduct(Pow2(k - 1), Pow2(l));
    }
  }

  lemma TwiceProduct(x: nat, y: nat)
    ensures 2 * (x * y) == (2 * x) * y
  {
  }

  lemma {:induction false} Pow2Monotone(k: nat, l: nat)
    requires k <= l
    ensures Pow2(k) <= Pow2(l)
  {
    if k < l { Pow2Monotone(k, l - 1); }
  }

  /** Without shifting the packed size. */
  lemma AtMostPacked(cur: nat, total: nat, pack: nat)
    requires cur <= total && pack <= MAX
    ensures Scaled(cur, total, pack) <= pack
  {
    var l := Excess(cur);
    ShiftedMonotone(cur, total, l);
    var c, t := Shifted(cur, l), Shifted(total, l);
    if t > 0 {
      MulMonotone(c, t, pack, pack);
      DivBound(c * pack, t, pack);
    } else {
      assert c * pack == 0;
    }
  }

  /** A packed size shifted more than thirty times has lost more than the progress can bring in. */
  lemma ManyShiftsStayBelow(cur: nat, total: nat, pack: nat)
    requires 31 <= Excess(pack)
    ensures Scaled(cur, total, pack) <= pack
  {
    var k, c := Excess(pack), Shifted(cur, Excess(cur));
    var p, t := Shifted(pack, k), Shifted(Shifted(total, k), Excess(cur));
    ExcessIsLeast(cur);
    ShiftedBounds(pack, k);
    LargePower(k);
    LostFactor(c, p, t, Pow2(k), pack);
  }

  lemma LargePower(k: nat)
    requires 31 <= k
    ensures Pow2(k) >= MAX
  {
    Pow2Of30();
    Pow2Monotone(31, k);
  }

  lemma LostFactor(c: nat, p: nat, t: nat, q: nat, pack: nat)
    requires c <= q && p * q <= pack
    ensures MulDiv(c, p, t) <= pack
  {
    MulMonotone(c, q, p, p);
    QuotientShrinks(c * p, if t == 0 then 1 else t);
  }

  /** The witness: progress at its end, with a total that has lost all but its first bit. */
  lemma FewShiftsOvershoot(pack: nat)
    requires 1 <= Excess(pack) <= 30
    ensures var end := 2 * Pow2(Excess(pack)) - 1; 0 < end < WORD && Scaled(end, end, pack) > pack
  {
    var k := Excess(pack);
    var end, p := 2 * Pow2(k) - 1, Shifted(pack, k);
    Pow2Of30();
    Pow2Monotone(k, 30);
    Pow2Monotone(1, k);
    assert end <= MAX;
    ExcessIsLeast(pack);
    ShiftedBounds(pack, k);
    ShiftedOfEnd(k);
    assert Scaled(end, end, pack) == end * p;
    hide Excess, Shifted;
    LargeEnd(Pow2(k), p, pack);
  }

  lemma {:induction false} ShiftedOfEnd(k: nat)
    ensures Shifted(2 * Pow2(k) - 1, k) == 1
  {
    if k > 0 {
      ShiftedOfEnd(k - 1);
      assert (2 * Pow2(k) - 1) / 2 == 2 * Pow2(k - 1) - 1;
    }
  }

  lemma LargeEnd(q: nat, p: nat, pack: nat)
    requires 2 <= q <= 0x4000_0000 <= p && pack < (p + 1) * q
    ensures (2 * q - 1) * p > pack
  {
    assert (p + 1) * q == q * p + q;
    assert (2 * q - 1) * p == q * p + (q - 1) * p;
    MulMonotone(q - 1, q - 1, 2, p);
    assert (q - 1) * p >= 2 * (q - 1) >= q;
  }

  lemma FewShiftsAreMonotone(cur: nat, cur': nat, total: nat, pack: nat)
    requires cur <= cur' <= total && Excess(pack) <= 30
    ensures Scaled(cur, total, pack) <= Scaled(cur', total, pack)
  {
    var k, p := Excess(pack), Shifted(pack, Excess(pack));
    var l, l' := Excess(cur), Excess(cur');
    var c, c' := Shifted(cur, l), Shifted(cur', l');
    var total' := Shifted(total, k);
    var t, t' := Shifted(total', l), Shifted(total', l');
    ExcessMonotone(cur, cur');
    if l == l' {
      ShiftedMonotone(cur, cur', l);
      var d := if t == 0 then 1 else t;
      MulMonotone(c, c', d, d);
      CrossQuotients(c, d, c', d, p);
    } else {
      TopBitStays(cur', total, k, l');
      ExcessIsLeast(cur);
      ExcessIsLeast(cur');
      ShiftsAdd(total', l, l' - l);
      ShiftAtLeastHalves(t, l' - l);
      hide Shifted, Excess;
      CrossAtBoundary(c, t, c', t');
      CrossQuotients(c, t, c', t', p);
    }
  }

  /** A total at or past a progress that had to be shifted is still there after thirty more shifts. */
  lemma TopBitStays(cur: nat, total: nat, k: nat, l: nat)
    requires cur <= total && l == Excess(cur) > 0 && k <= 30
    ensures Shifted(Shifted(total, k), l) > 0
  {
    ExcessIsLeast(cur);
    ShiftedMonotone(cur, total, l);
    ShiftsAdd(total, k, l);
    ShiftsAdd(total, l, k);
    var s := Shifted(total, l);
    ShiftedBounds(s, k);
    Pow2Of30();
    Pow2Monotone(k, 30);
    hide Shifted, Excess;
  }

  /** The witness: at 2^31 of 2^31 + 1 the total counts as one, and one byte more halves the progress. */
  lemma ManyShiftsGoBack(pack: nat)
    requires 31 <= Excess(pack)
    ensures Scaled(MAX, MAX + 1, pack) > Scaled(MAX + 1, MAX + 1, pack)
  {
    var k, p := Excess(pack), Shifted(pack, Excess(pack));
    ExcessIsLeast(pack);
    LargePower(k);
    ShiftedBounds(MAX + 1, k);
    var t := Shifted(MAX + 1, k);
    assert t <= 1;
    ShiftedShrinks(t, 1);
    assert Excess(MAX + 1) == 1 + Excess(0x4000_0000);
    assert Shifted(MAX + 1, 1) == Shifted(0x4000_0000, 0) == 0x4000_0000;
    assert Shifted(t, 1) == Shifted(t / 2, 0) == 0;
    assert Shifted(MAX, 0) == MAX && Shifted(t, 0) == t;
    hide Shifted, Excess;
  }

  /** A case: three of three bytes against a packed size of 4 GB. */
  lemma CanOvershoot()
    ensures Scaled(3, 3, WORD32) > WORD32 && !NeverOvershoots(WORD32)
  {
    NeverOvershootsExactlyWhen(WORD32);
    assert Excess(WORD32) == 1 + Excess(MAX);
    FewShiftsOvershoot(WORD32);
    assert Pow2(1) == 2;
  }

  /** More shifting for the larger progress: it still has its top bit, and the total has lost at least half. */
  lemma CrossAtBoundary(c: nat, t: nat, c': nat, t': nat)
    requires c <= MAX && MAX / 2 <= c' && 2 * t' <= t
    ensures c * t' <= c' * t
  {
    MulMonotone(c, MAX, t', t');
    MulMonotone(MAX / 2, c', 2 * t', t);
  }

  lemma CrossQuotients(a: nat, b: nat, a': nat, b': nat, p: nat)
    requires b > 0 && b' > 0 && a * b' <= a' * b
    ensures a * p / b <= a' * p / b'
  {
    var q := a * p / b;
    QuotientIsLargest(a * p, b, q);
    CrossProducts(a, b, a', b', p, q);
    QuotientIsLargest(a' * p, b', q);
  }

  lemma CrossProducts(a: nat, b: nat, a': nat, b': nat, p: nat, q: nat)
    requires b > 0 && b' > 0 && a * b' <= a' * b && q * b <= a * p
    ensures q * b' <= a' * p
  {
    MulMonotone(q * b, a * p, b', b');
    MulMonotone(a * b', a' * b, p, p);
    Regroup(q, b, b');
    Regroup(a, p, b');
    Regroup(a', b, p);
    Cancel(q * b', a' * p, b);
  }

  lemma Regroup(x: nat, y: nat, z: nat)
    ensures (x * y) * z == (x * z) * y
  {
  }

  lemma Cancel(x: nat, y: nat, b: nat)
    requires b > 0
    ensures x * b <= y * b ==> x <= y
  {
    if x > y {
      MulMonotone(y + 1, x, b, b);
      assert (y + 1) * b == y * b + b;
    }
  }
}
