/**
 Doubling an 8-bit picture in both directions, once with 32-bit general registers and once with 64-bit MMX registers.
 A mask is set in every pixel of the even rows, and one in every pixel of the odd rows.
 */
module PixelDoubler {

  // ---- registers ----

  function Masked(b: bv8, m: bv8): bv8 { b | m }

  function SetAl(eax: bv32, b: bv8): bv32 { (eax & 0xffff_ff00) | (b as bv32) }

  function SetAh(eax: bv32, b: bv8): bv32 { (eax & 0xffff_00ff) | ((b as bv32) << 8) }

  function Shl16(eax: bv32): bv32 { eax << 16 }

  function Or(eax: bv32, edx: bv32): bv32 { eax | edx }

  function Mask32(m: bv8): bv32 {
    (m as bv32) | ((m as bv32) << 8) | ((m as bv32) << 16) | ((m as bv32) << 24)
  }

  /** The word made of two source bytes: whatever the register held before is shifted out or overwritten. */
  function PairWord(eax: bv32, b0: bv8, b1: bv8, edx: bv32): bv32 {
    Or(SetAh(SetAl(Shl16(SetAh(SetAl(eax, b1), b1)), b0), b0), edx)
  }

  function Byte0(w: bv32): bv8 { (w & 0xff) as bv8 }

  function Byte1(w: bv32): bv8 { ((w >> 8) & 0xff) as bv8 }

  function Byte2(w: bv32): bv8 { ((w >> 16) & 0xff) as bv8 }

  function Byte3(w: bv32): bv8 { ((w >> 24) & 0xff) as bv8 }

  /** The bytes of a word in memory, lowest first. */
  function Bytes32(w: bv32): (r: seq<bv8>)
    ensures |r| == 4
  {
    [Byte0(w), Byte1(w), Byte2(w), Byte3(w)]
  }

  lemma AlBytes(x: bv32, b: bv8)
    ensures (SetAl(x, b) & 0xff) as bv8 == b
    ensures ((SetAl(x, b) >> 16) & 0xff) as bv8 == ((x >> 16) & 0xff) as bv8
    ensures ((SetAl(x, b) >> 24) & 0xff) as bv8 == ((x >> 24) & 0xff) as bv8
  {
  }

  lemma AhBytes(x: bv32, b: bv8)
    ensures ((SetAh(x, b) >> 8) & 0xff) as bv8 == b
    ensures (SetAh(x, b) & 0xff) as bv8 == (x & 0xff) as bv8
    ensures ((SetAh(x, b) >> 16) & 0xff) as bv8 == ((x >> 16) & 0xff) as bv8
    ensures ((SetAh(x, b) >> 24) & 0xff) as bv8 == ((x >> 24) & 0xff) as bv8
  {
  }

  lemma ShiftedBytes(x: bv32)
    ensures ((Shl16(x) >> 16) & 0xff) as bv8 == (x & 0xff) as bv8
    ensures ((Shl16(x) >> 24) & 0xff) as bv8 == ((x >> 8) & 0xff) as bv8
  {
  }

  lemma OrBytes(x: bv32, y: bv32)
    ensures Byte0(x | y) == Byte0(x) | Byte0(y) && Byte1(x | y) == Byte1(x) | Byte1(y)
    ensures Byte2(x | y) == Byte2(x) | Byte2(y) && Byte3(x | y) == Byte3(x) | Byte3(y)
  {
  }

  lemma OrMasksBytes(x: bv32, y: bv32)
    ensures Byte0(Or(x, y)) == Masked(Byte0(x), Byte0(y)) && Byte1(Or(x, y)) == Masked(Byte1(x), Byte1(y))
    ensures Byte2(Or(x, y)) == Masked(Byte2(x), Byte2(y)) && Byte3(Or(x, y)) == Masked(Byte3(x), Byte3(y))
  {
    OrBytes(x, y);
    hide Byte0, Byte1, Byte2, Byte3;
  }

  lemma MaskParts(m: bv8)
    ensures (Mask32(m) & 0xff) as bv8 == m && ((Mask32(m) >> 8) & 0xff) as bv8 == m
    ensures ((Mask32(m) >> 16) & 0xff) as bv8 == m && ((Mask32(m) >> 24) & 0xff) as bv8 == m
  {
  }

  lemma MaskBytes(m: bv8)
    ensures Byte0(Mask32(m)) == Byte1(Mask32(m)) == Byte2(Mask32(m)) == Byte3(Mask32(m)) == m
  {
    MaskParts(m);
    hide Mask32;
  }

  lemma MaskedWord(x: bv32, m: bv8)
    ensures Byte0(Or(x, Mask32(m))) == Masked(Byte0(x), m) && Byte1(Or(x, Mask32(m))) == Masked(Byte1(x), m)
    ensures Byte2(Or(x, Mask32(m))) == Masked(Byte2(x), m) && Byte3(Or(x, Mask32(m))) == Masked(Byte3(x), m)
  {
    OrMasksBytes(x, Mask32(m));
    MaskBytes(m);
    hide *;
  }

  lemma PairWordBytes(eax: bv32, b0: bv8, b1: bv8, m: bv8)
    ensures Bytes32(PairWord(eax, b0, b1, Mask32(m))) == [Masked(b0, m), Masked(b0, m), Masked(b1, m), Masked(b1, m)]
  {
    var e1 := SetAl(eax, b1);
    var e2 := SetAh(e1, b1);
    var e3 := Shl16(e2);
    var e4 := SetAl(e3, b0);
    var e5 := SetAh(e4, b0);
    AlBytes(eax, b1);
    AhBytes(e1, b1);
    ShiftedBytes(e2);
    AlBytes(e3, b0);
    AhBytes(e4, b0);
    MaskedWord(e5, m);
    hide SetAl, SetAh, Shl16, Or, Mask32, Masked;
  }

  /** A 64-bit register as its eight packed bytes, lowest first. */
  type Packed = q: seq<bv8> | |q| == 8 witness [0, 0, 0, 0, 0, 0, 0, 0]

  /** Loads four bytes into the low half and clears the high half. */
  function Movd(bytes: seq<bv8>): Packed
    requires |bytes| == 4
  {
    bytes + [0, 0, 0, 0]
  }

  /** Interleaves the low four bytes of two registers, the first one's byte first. */
  function Punpcklbw(a: Packed, b: Packed): Packed {
    [a[0], b[0], a[1], b[1], a[2], b[2], a[3], b[3]]
  }

  function Por(a: Packed, b: Packed): Packed {
    [Masked(a[0], b[0]), Masked(a[1], b[1]), Masked(a[2], b[2]), Masked(a[3], b[3]),
     Masked(a[4], b[4]), Masked(a[5], b[5]), Masked(a[6], b[6]), Masked(a[7], b[7])]
  }

  function Mask64(m: bv8): Packed {
    [m, m, m, m, m, m, m, m]
  }

  // ---- what a row should look like ----

  function Twice(b: bv8, m: bv8): seq<bv8> { [Masked(b, m), Masked(b, m)] }

  /** Each of `width` source bytes from esi on appears twice, with the mask set, from edi on; nothing else changes. */
  function Doubled(d: seq<bv8>, s: seq<bv8>, esi: nat, edi: nat, width: nat, m: bv8): (r: seq<bv8>)
    requires esi + width <= |s| && edi + 2 * width <= |d|
    ensures |r| == |d|
  {
    seq(|d|, p requires 0 <= p < |d| => if edi <= p < edi + 2 * width then Masked(s[esi + (p - edi) / 2], m) else d[p])
  }

  lemma DoubledNone(d: seq<bv8>, s: seq<bv8>, esi: nat, edi: nat, m: bv8)
    requires esi <= |s| && edi <= |d|
    ensures Doubled(d, s, esi, edi, 0, m) == d
  {
  }

  lemma DoubledAt(d: seq<bv8>, s: seq<bv8>, esi: nat, edi: nat, width: nat, m: bv8, p: nat)
    requires esi + width <= |s| && edi + 2 * width <= |d| && p < |d|
    ensures Doubled(d, s, esi, edi, width, m)[p]
            == if edi <= p < edi + 2 * width then Masked(s[esi + (p - edi) / 2], m) else d[p]
  {
  }

  /** Two more source bytes: four bytes stored behind the row so far. */
  lemma DoubledPair(d: seq<bv8>, s: seq<bv8>, esi: nat, edi: nat, width: nat, m: bv8, r: seq<bv8>)
    requires esi + width + 2 <= |s| && edi + 2 * width + 4 <= |d| && |r| == |d|
    requires var e, f := edi + 2 * width, Doubled(d, s, esi, edi, width, m);
             && r[..e] == f[..e] && r[e + 4..] == f[e + 4..]
             && r[e..e + 4] == Twice(s[esi + width], m) + Twice(s[esi + width + 1], m)
    ensures r == Doubled(d, s, esi, edi, width + 2, m)
  {
    hide Masked;
    var e, f := edi + 2 * width, Doubled(d, s, esi, edi, width, m);
    forall p | 0 <= p < |d| ensures r[p] == Doubled(d, s, esi, edi, width + 2, m)[p] {
      if p < e {
        assert r[p] == r[..e][p] == f[..e][p];
      } else if p >= e + 4 {
        assert r[p] == r[e + 4..][p - e - 4] == f[e + 4..][p - e - 4];
      } else {
        var four := Twice(s[esi + width], m) + Twice(s[esi + width + 1], m);
        assert r[p] == r[e..e + 4][p - e] == four[p - e];
        assert (p - edi) / 2 == width + (if p < e + 2 then 0 else 1);
      }
    }
  }

  // ---- the scalar rows ----

  lemma PairWordTwice(eax: bv32, b0: bv8, b1: bv8, m: bv8)
    ensures Bytes32(PairWord(eax, b0, b1, Mask32(m))) == Twice(b0, m) + Twice(b1, m)
  {
    PairWordBytes(eax, b0, b1, m);
    hide PairWord, Bytes32, Mask32, Masked;
  }

  method Store32(dst: array<bv8>, at: nat, w: bv32)
    requires at + 4 <= dst.Length
    modifies dst
    ensures dst[..at] == old(dst[..at]) && dst[at + 4..] == old(dst[at + 4..])
    ensures dst[at..at + 4] == Bytes32(w)
  {
    hide *;
    var b := Bytes32(w);
    dst[at], dst[at + 1], dst[at + 2], dst[at + 3] := b[0], b[1], b[2], b[3];
    assert dst[at..at + 4] == [b[0], b[1], b[2], b[3]] == b;
  }

  /** Builds one word from two source bytes and stores it. */
  method ScalarPair(src: array<bv8>, dst: array<bv8>, ghost d: seq<bv8>, ghost s: seq<bv8>,
      esi: nat, edi: nat, done: nat, eax: bv32, m: bv8)
    returns (eax': bv32)
    requires src != dst && src[..] == s && esi + done + 2 <= src.Length && edi + 2 * done + 4 <= dst.Length
        && |d| == dst.Length
    requires dst[..] == Doubled(d, s, esi, edi, done, m)
    modifies dst
    ensures src[..] == s
    ensures dst[..] == Doubled(d, s, esi, edi, done + 2, m)
  {
    ghost var was := dst[..];
    eax' := PairWord(eax, src[esi + done], src[esi + done + 1], Mask32(m));
    PairWordTwice(eax, src[esi + done], src[esi + done + 1], m);
    hide PairWord, Bytes32, Mask32, Twice, Masked;
    var e := edi + 2 * done;
    Store32(dst, e, eax');
    assert dst[..e] == was[..e] && dst[e + 4..] == was[e + 4..];
    DoubledPair(d, s, esi, edi, done, m, dst[..]);
  }

  /** The loop body: eight source bytes. */
  method ScalarBlock(src: array<bv8>, dst: array<bv8>, ghost d: seq<bv8>, ghost s: seq<bv8>,
      esi: nat, edi: nat, done: nat, eax: bv32, m: bv8)
    returns (eax': bv32)
    requires src != dst && src[..] == s && esi + done + 8 <= src.Length && edi + 2 * done + 16 <= dst.Length
        && |d| == dst.Length
    requires dst[..] == Doubled(d, s, esi, edi, done, m)
    modifies dst
    ensures src[..] == s
    ensures dst[..] == Doubled(d, s, esi, edi, done + 8, m)
  {
    hide Doubled;
    eax' := ScalarPair(src, dst, d, s, esi, edi, done, eax, m);
    eax' := ScalarPair(src, dst, d, s, esi, edi, done + 2, eax', m);
    eax' := ScalarPair(src, dst, d, s, esi, edi, done + 4, eax', m);
    eax' := ScalarPair(src, dst, d, s, esi, edi, done + 6, eax', m);
  }

  /** The loop over a row with general registers: eight source bytes, sixteen stored bytes a time. */
  method ScalarRow(src: array<bv8>, pScn: nat, dst: array<bv8>, pDst: nat, width: nat, m: bv8)
    requires src != dst && 0 < width && width % 8 == 0
    requires pScn + width <= src.Length && pDst + 2 * width <= dst.Length
    modifies dst
    ensures dst[..] == Doubled(old(dst[..]), src[..], pScn, pDst, width, m)
  {
    ghost var d, s := dst[..], src[..];
    ghost var blocks, n := width / 8, 0;
    assert width == 8 * blocks;
    hide Doubled;
    DoubledNone(d, s, pScn, pDst, m);
    var done, ecx := 0, width as int;
    var eax: bv32 := 0;
    var again := true;
    while again
      invariant n <= blocks && done == 8 * n && ecx == 8 * (blocks - n) && again == (n < blocks)
      invariant src[..] == s && dst[..] == Doubled(d, s, pScn, pDst, done, m)
      decreases ecx
    {
      eax := ScalarBlock(src, dst, d, s, pScn, pDst, done, eax, m);
      n := n + 1;
      done := done + 8;
      ecx := ecx - 8;
      again := ecx > 0;
    }
  }

  // ---- the MMX rows ----

  method Movq(dst: array<bv8>, at: nat, q: Packed)
    requires at + 8 <= dst.Length
    modifies dst
    ensures dst[..at] == old(dst[..at]) && dst[at + 8..] == old(dst[at + 8..])
    ensures dst[at..at + 8] == q
  {
    dst[at], dst[at + 1], dst[at + 2], dst[at + 3] := q[0], q[1], q[2], q[3];
    dst[at + 4], dst[at + 5], dst[at + 6], dst[at + 7] := q[4], q[5], q[6], q[7];
  }

  lemma InterleavedHalves(w: seq<bv8>, m: bv8)
    requires |w| == 4
    ensures var q := Por(Punpcklbw(Movd(w), Movd(w)), Mask64(m));
            q[..4] == Twice(w[0], m) + Twice(w[1], m) && q[4..] == Twice(w[2], m) + Twice(w[3], m)
  {
    hide Masked;
  }

  lemma DoubledQuad(d: seq<bv8>, s: seq<bv8>, esi: nat, edi: nat, width: nat, m: bv8, r: seq<bv8>, q: Packed)
    requires esi + width + 4 <= |s| && edi + 2 * width + 8 <= |d| && |r| == |d|
    requires var e, f, mm := edi + 2 * width, Doubled(d, s, esi, edi, width, m), Movd(s[esi + width..esi + width + 4]);
             && r[..e] == f[..e] && r[e + 8..] == f[e + 8..]
             && r[e..e + 8] == q == Por(Punpcklbw(mm, mm), Mask64(m))
    ensures r == Doubled(d, s, esi, edi, width + 4, m)
  {
    var e, f := edi + 2 * width, Doubled(d, s, esi, edi, width, m);
    QuadBytes(s, esi + width, m, q);
    hide *;
    var mid := f[..e] + q[..4] + f[e + 4..];
    StoredInTwo(f, mid, r, e, q);
    DoubledPair(d, s, esi, edi, width, m, mid);
    DoubledPair(d, s, esi, edi, width + 2, m, r);
  }

  lemma QuadBytes(s: seq<bv8>, at: nat, m: bv8, q: Packed)
    requires at + 4 <= |s|
    requires var mm := Movd(s[at..at + 4]); q == Por(Punpcklbw(mm, mm), Mask64(m))
    ensures q[..4] == Twice(s[at], m) + Twice(s[at + 1], m) && q[4..] == Twice(s[at + 2], m) + Twice(s[at + 3], m)
  {
    InterleavedHalves(s[at..at + 4], m);
    hide *;
  }

  /** Eight bytes stored at once are four bytes stored and then four more. */
  lemma StoredInTwo(f: seq<bv8>, mid: seq<bv8>, r: seq<bv8>, e: nat, q: Packed)
    requires e + 8 <= |f| == |r| && r[..e] == f[..e] && r[e..e + 8] == q && r[e + 8..] == f[e + 8..]
    requires mid == f[..e] + q[..4] + f[e + 4..]
    ensures |mid| == |r|
    ensures mid[..e] == f[..e] && mid[e..e + 4] == q[..4] && mid[e + 4..] == f[e + 4..]
    ensures r[..e + 4] == mid[..e + 4] && r[e + 4..e + 8] == q[4..] && r[e + 8..] == mid[e + 8..]
  {
    assert r[..e + 4] == r[..e] + r[e..e + 8][..4] == mid[..e + 4];
    assert r[e + 4..e + 8] == r[e..e + 8][4..];
    assert mid[e + 8..] == mid[e + 4..][4..] == f[e + 4..][4..] == f[e + 8..];
  }

  /** Loads four source bytes, interleaves them with themselves, sets the mask and stores eight bytes. */
  method MmxQuad(src: array<bv8>, dst: array<bv8>, ghost d: seq<bv8>, ghost s: seq<bv8>, esi: nat, edi: nat, done: nat,
      m: bv8)
    requires src != dst && src[..] == s && esi + done + 4 <= src.Length && edi + 2 * done + 8 <= dst.Length
        && |d| == dst.Length
    requires dst[..] == Doubled(d, s, esi, edi, done, m)
    modifies dst
    ensures src[..] == s
    ensures dst[..] == Doubled(d, s, esi, edi, done + 4, m)
  {
    ghost var was := dst[..];
    var mm0 := Movd(src[esi + done..esi + done + 4]);
    var mm1 := mm0;
    mm0 := Punpcklbw(mm0, mm1);
    mm0 := Por(mm0, Mask64(m));
    var e := edi + 2 * done;
    Movq(dst, e, mm0);
    assert dst[..e] == was[..e] && dst[e + 8..] == was[e + 8..];
    assert s[esi + done..esi + done + 4] == src[esi + done..esi + done + 4];
    DoubledQuad(d, s, esi, edi, done, m, dst[..], mm0);
  }

  method MmxBlock(src: array<bv8>, dst: array<bv8>, ghost d: seq<bv8>, ghost s: seq<bv8>, esi: nat, edi: nat,
      done: nat, m: bv8)
    requires src != dst && src[..] == s && esi + done + 8 <= src.Length && edi + 2 * done + 16 <= dst.Length
        && |d| == dst.Length
    requires dst[..] == Doubled(d, s, esi, edi, done, m)
    modifies dst
    ensures src[..] == s
    ensures dst[..] == Doubled(d, s, esi, edi, done + 8, m)
  {
    hide Doubled;
    MmxQuad(src, dst, d, s, esi, edi, done, m);
    MmxQuad(src, dst, d, s, esi, edi, done + 4, m);
  }

  method MmxRow(src: array<bv8>, pScn: nat, dst: array<bv8>, pDst: nat, width: nat, m: bv8)
    requires src != dst && 0 < width && width % 8 == 0
    requires pScn + width <= src.Length && pDst + 2 * width <= dst.Length
    modifies dst
    ensures dst[..] == Doubled(old(dst[..]), src[..], pScn, pDst, width, m)
  {
    ghost var d, s := dst[..], src[..];
    ghost var blocks, n := width / 8, 0;
    assert width == 8 * blocks;
    hide Doubled;
    DoubledNone(d, s, pScn, pDst, m);
    var done, ecx := 0, width as int;
    var again := true;
    while again
      invariant n <= blocks && done == 8 * n && ecx == 8 * (blocks - n) && again == (n < blocks)
      invariant src[..] == s && dst[..] == Doubled(d, s, pScn, pDst, done, m)
      decreases ecx
    {
      MmxBlock(src, dst, d, s, pScn, pDst, done, m);
      n := n + 1;
      done := done + 8;
      ecx := ecx - 8;
      again := ecx > 0;
    }
  }

  // ---- whole pictures ----

  /** Width and height in source pixels, bytes from one source row to the next, and from one surface row to the next. */
  datatype Geometry = Geometry(width: nat, height: nat, stride: nat, pitch: nat)

  function Row(k: nat, distance: nat): nat { k * distance }

  lemma NextRow(k: nat, distance: nat)
    ensures Row(k + 1, distance) == Row(k, distance) + distance
  {
  }

  lemma RowMonotone(k: nat, l: nat, distance: nat)
    requires k <= l
    ensures Row(k, distance) <= Row(l, distance)
  {
    assert l * distance == k * distance + (l - k) * distance;
  }

  /** The buffers have room for every row that is touched. */
  predicate Fits(g: Geometry, s: nat, d: nat) {
    && 2 * g.width <= g.pitch && g.width <= g.stride
    && (g.height > 0 ==>
          Row(g.height - 1, g.stride) + g.width <= s && Row(2 * g.height - 1, g.pitch) + 2 * g.width <= d)
  }

  lemma RowsFit(g: Geometry, s: nat, d: nat, i: nat)
    requires Fits(g, s, d) && i < g.height
    ensures Row(i, g.stride) + g.width <= s
    ensures Row(2 * i + 1, g.pitch) == Row(2 * i, g.pitch) + g.pitch
    ensures Row(2 * i + 1, g.pitch) + 2 * g.width <= d
  {
    RowMonotone(i, g.height - 1, g.stride);
    RowMonotone(2 * i + 1, 2 * g.height - 1, g.pitch);
    NextRow(2 * i, g.pitch);
    hide Row;
  }

  /** Source row k drawn as surface rows 2k and 2k + 1. */
  function RowPair(d: seq<bv8>, s: seq<bv8>, g: Geometry, m0: bv8, m1: bv8, k: nat): (r: seq<bv8>)
    requires Fits(g, |s|, |d|) && k < g.height
    ensures |r| == |d|
  {
    RowsFit(g, |s|, |d|, k);
    var even := Doubled(d, s, Row(k, g.stride), Row(2 * k, g.pitch), g.width, m0);
    Doubled(even, s, Row(k, g.stride), Row(2 * k + 1, g.pitch), g.width, m1)
  }

  /** The surface after the first n source rows. */
  function Surface(d: seq<bv8>, s: seq<bv8>, g: Geometry, m0: bv8, m1: bv8, n: nat): (r: seq<bv8>)
    requires Fits(g, |s|, |d|) && n <= g.height
    ensures |r| == |d|
  {
    if n == 0 then d else RowPair(Surface(d, s, g, m0, m1, n - 1), s, g, m0, m1, n - 1)
  }

  /**
   What a picture of n rows means byte by byte: row r, column c of the surface holds source byte (r/2, c/2) with the
   row's mask; bytes beyond twice the width, and beyond the rows drawn, keep their value.
   */
  function Pixel(d: seq<bv8>, s: seq<bv8>, g: Geometry, m0: bv8, m1: bv8, n: nat, r: nat, c: nat): bv8
    requires Fits(g, |s|, |d|) && n <= g.height && c < g.pitch && Row(r, g.pitch) + c < |d|
  {
    if r < 2 * n && c < 2 * g.width then
      RowsFit(g, |s|, |d|, r / 2);
      Masked(s[Row(r / 2, g.stride) + c / 2], if r % 2 == 0 then m0 else m1)
    else d[Row(r, g.pitch) + c]
  }

  lemma {:induction false} SurfaceIsPixels(d: seq<bv8>, s: seq<bv8>, g: Geometry, m0: bv8, m1: bv8, n: nat, r: nat,
      c: nat)
    requires Fits(g, |s|, |d|) && n <= g.height && c < g.pitch && Row(r, g.pitch) + c < |d|
    ensures Surface(d, s, g, m0, m1, n)[Row(r, g.pitch) + c] == Pixel(d, s, g, m0, m1, n, r, c)
  {
    if n > 0 {
      SurfaceIsPixels(d, s, g, m0, m1, n - 1, r, c);
      RowsFit(g, |s|, |d|, n - 1);
      RowPairAt(Surface(d, s, g, m0, m1, n - 1), s, g, m0, m1, n - 1, r, c);
      PixelStep(d, s, g, m0, m1, n, r, c);
      hide Masked, Row, Fits, RowPair, Pixel;
    }
  }

  /** What one more source row changes. */
  lemma PixelStep(d: seq<bv8>, s: seq<bv8>, g: Geometry, m0: bv8, m1: bv8, n: nat, r: nat, c: nat)
    requires Fits(g, |s|, |d|) && 0 < n <= g.height && c < g.pitch && Row(r, g.pitch) + c < |d|
    requires Row(n - 1, g.stride) + g.width <= |s|
    ensures Pixel(d, s, g, m0, m1, n, r, c)
            == if r / 2 == n - 1 && c < 2 * g.width
               then Masked(s[Row(n - 1, g.stride) + c / 2], if r % 2 == 0 then m0 else m1)
               else Pixel(d, s, g, m0, m1, n - 1, r, c)
  {
    hide Masked, Row, Fits;
    Halves(r, n - 1);
  }

  lemma WideEnough(g: Geometry, s: nat, d: nat)
    requires Fits(g, s, d)
    ensures 2 * g.width <= g.pitch
  {
  }

  /** A whole picture byte by byte: each drawn byte is its source byte with the bits of the row's mask set. */
  lemma DrawnPixel(d: seq<bv8>, s: seq<bv8>, g: Geometry, m0: bv8, m1: bv8, r: nat, c: nat, to: nat, from: nat)
    requires Fits(g, |s|, |d|) && r < 2 * g.height && c < 2 * g.width
    requires to == r * g.pitch + c < |d| && from == r / 2 * g.stride + c / 2
    ensures from < |s| && Surface(d, s, g, m0, m1, g.height)[to] == s[from] | (if r % 2 == 0 then m0 else m1)
  {
    assert Row(r, g.pitch) == r * g.pitch && Row(r / 2, g.stride) == r / 2 * g.stride;
    hide Surface, Row, Fits;
    RowsFit(g, |s|, |d|, r / 2);
    assert c < g.pitch by { WideEnough(g, |s|, |d|); }
    SurfaceIsPixels(d, s, g, m0, m1, g.height, r, c);
  }

  lemma Halves(r: nat, k: nat)
    ensures r / 2 == k <==> r == 2 * k || r == 2 * k + 1
    ensures (r == 2 * k ==> r % 2 == 0) && (r == 2 * k + 1 ==> r % 2 == 1)
  {
  }

  lemma RowPairAt(d: seq<bv8>, s: seq<bv8>, g: Geometry, m0: bv8, m1: bv8, k: nat, r: nat, c: nat)
    requires Fits(g, |s|, |d|) && k < g.height && c < g.pitch && Row(r, g.pitch) + c < |d|
    requires Row(k, g.stride) + g.width <= |s|
    ensures RowPair(d, s, g, m0, m1, k)[Row(r, g.pitch) + c]
            == if r / 2 == k && c < 2 * g.width
               then Masked(s[Row(k, g.stride) + c / 2], if r % 2 == 0 then m0 else m1)
               else d[Row(r, g.pitch) + c]
  {
    hide Doubled, Masked, Row;
    var p := Row(r, g.pitch) + c;
    RowsFit(g, |s|, |d|, k);
    var even := Doubled(d, s, Row(k, g.stride), Row(2 * k, g.pitch), g.width, m0);
    DoubledAt(d, s, Row(k, g.stride), Row(2 * k, g.pitch), g.width, m0, p);
    DoubledAt(even, s, Row(k, g.stride), Row(2 * k + 1, g.pitch), g.width, m1, p);
    RowContains(2 * k, r, c, g.width, g.pitch);
    RowContains(2 * k + 1, r, c, g.width, g.pitch);
    Halves(r, k);
    hide Fits;
  }

  /** Position (r, c) lies in the drawn part of row q exactly when r is q and c is inside. */
  lemma RowContains(q: nat, r: nat, c: nat, width: nat, pitch: nat)
    requires c < pitch && 2 * width <= pitch
    ensures Row(q, pitch) <= Row(r, pitch) + c < Row(q, pitch) + 2 * width <==> r == q && c < 2 * width
  {
    if r > q {
      RowMonotone(q + 1, r, pitch);
      NextRow(q, pitch);
    } else if r < q {
      RowMonotone(r + 1, q, pitch);
      NextRow(r, pitch);
    }
    hide Row;
  }

  method DrawRow(mmx: bool, src: array<bv8>, pScn: nat, dst: array<bv8>, pDst: nat, width: nat, m: bv8)
    requires src != dst && 0 < width && width % 8 == 0
    requires pScn + width <= src.Length && pDst + 2 * width <= dst.Length
    modifies dst
    ensures dst[..] == Doubled(old(dst[..]), src[..], pScn, pDst, width, m)
  {
    if mmx { MmxRow(src, pScn, dst, pDst, width, m); } else { ScalarRow(src, pScn, dst, pDst, width, m); }
  }

  method DrawRowPair(mmx: bool, src: array<bv8>, dst: array<bv8>, g: Geometry, m0: bv8, m1: bv8, k: nat, pScn: nat,
      pDst: nat)
    requires src != dst && 0 < g.width && g.width % 8 == 0
    requires Fits(g, src.Length, dst.Length) && k < g.height
    requires pScn == Row(k, g.stride) && pDst == Row(2 * k, g.pitch)
    modifies dst
    ensures dst[..] == RowPair(old(dst[..]), src[..], g, m0, m1, k)
  {
    RowsFit(g, src.Length, dst.Length, k);
    hide Row, Fits, Doubled;
    DrawRow(mmx, src, pScn, dst, pDst, g.width, m0);
    DrawRow(mmx, src, pScn, dst, pDst + g.pitch, g.width, m1);
  }

  /** Draws a whole picture with either kind of row. */
  method DrawRows(mmx: bool, src: array<bv8>, dst: array<bv8>, g: Geometry, m0: bv8, m1: bv8)
    requires src != dst && 0 < g.width && g.width % 8 == 0
    requires Fits(g, src.Length, dst.Length)
    modifies dst
    ensures dst[..] == Surface(old(dst[..]), src[..], g, m0, m1, g.height)
  {
    var pScn, pDst := 0, 0;
    assert Row(0, g.stride) == 0 == Row(0, g.pitch);
    hide Row, Fits, RowPair;
    for i := 0 to g.height
      invariant pScn == Row(i, g.stride) && pDst == Row(2 * i, g.pitch)
      invariant dst[..] == Surface(old(dst[..]), src[..], g, m0, m1, i)
    {
      DrawRowPair(mmx, src, dst, g, m0, m1, i, pScn, pDst);
      pDst := pDst + g.pitch;
      pScn := pScn + g.stride;
      pDst := pDst + g.pitch;
      NextRow(i, g.stride);
      NextRow(2 * i, g.pitch);
      NextRow(2 * i + 1, g.pitch);
    }
  }

  const NORMAL_MASK: bv8 := 0x40
  const SCANLINE_MASK: bv8 := 0x80

  /** Both processors' paths draw the same surface. */
  method Render8bpp_Double(mmx: bool, lpRdr: array<bv8>, lpSurface: array<bv8>, g: Geometry)
    requires lpRdr != lpSurface && 0 < g.width && g.width % 8 == 0
    requires Fits(g, lpRdr.Length, lpSurface.Length)
    modifies lpSurface
    ensures lpSurface[..] == Surface(old(lpSurface[..]), lpRdr[..], g, 0x40, 0x40, g.height)
  {
    DrawRows(mmx, lpRdr, lpSurface, g, NORMAL_MASK, NORMAL_MASK);
  }

  method Render8bpp_DoubleScanline(mmx: bool, lpRdr: array<bv8>, lpSurface: array<bv8>, g: Geometry)
    requires lpRdr != lpSurface && 0 < g.width && g.width % 8 == 0
    requires Fits(g, lpRdr.Length, lpSurface.Length)
    modifies lpSurface
    ensures lpSurface[..] == Surface(old(lpSurface[..]), lpRdr[..], g, 0x40, 0x80, g.height)
  {
    DrawRows(mmx, lpRdr, lpSurface, g, NORMAL_MASK, SCANLINE_MASK);
  }
}
