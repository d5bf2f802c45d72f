/**
 The check value of section 3.4 of RFC 2083 as what it stands for: the remainder of a division of polynomials over bits,
 and what that makes of the end of every file.
 */
module PngCheck {
  import opened Bytes
  import opened PngFormat

  /** A polynomial over bits: its coefficients, that of the highest power first. */
  type Polynomial = seq<bool>

  /** The divisor: the powers 32, 26, 23, 22, 16, 12, 11, 10, 8, 7, 5, 4, 2, 1 and 0. */
  const DIVISOR: Polynomial :=
    [true]                                                              // 32
    + ([false, false, false, false, false, true, false, false]          // 31 to 24
       + ([true, true, false, false, false, false, false, true]         // 23 to 16
          + ([false, false, false, true, true, true, false, true]       // 15 to 8
             + [true, false, true, true, false, true, true, true])))    // 7 to 0

  /** The sum, which is also the difference, of two polynomials written with as many coefficients. */
  function Sum(a: Polynomial, b: Polynomial): (r: Polynomial)
    requires |a| == |b|
    ensures |r| == |a|
  {
    seq(|a|, i requires 0 <= i < |a| => a[i] != b[i])
  }

  /** Division by hand: as long as there are more than 32 coefficients, the first is removed by the divisor. */
  function Remainder(p: Polynomial): (r: Polynomial)
    ensures |r| == if |p| <= 32 then |p| else 32
    decreases |p|
  {
    if |p| <= 32 then p
    else if p[0] then Remainder(Sum(p[..33], DIVISOR)[1..] + p[33..])
    else Remainder(p[1..])
  }

  function Zeros(n: nat): Polynomial { seq(n, i => false) }

  function Ones(n: nat): Polynomial { seq(n, i => true) }

  predicate Low(c: bv32) { c & 1 == 1 }

  function Half(c: bv32): bv32 { c >> 1 }

  function Xor(a: bv32, b: bv32): bv32 { a ^ b }

  /** The bits of a word, lowest first. */
  function BitsOf(c: bv32, k: nat): (r: Polynomial)
    ensures |r| == k
    decreases k
  {
    if k == 0 then [] else [Low(c)] + BitsOf(Half(c), k - 1)
  }

  /** The message: of each byte the lowest bit first. */
  function Message(data: seq<byte>): Polynomial {
    if data == [] then [] else BitsOf(data[0] as bv32, 8) + Message(data[1..])
  }

  /** A register added to the first 32 coefficients. */
  function Added(register: Polynomial, p: Polynomial): Polynomial
    requires |register| == 32 <= |p|
  {
    Sum(register, p[..32]) + p[32..]
  }

  // ---- one bit ----

  const REGISTER_DIVISOR: bv32 := 0xedb8_8320

  function ShiftOut(c: bv32): bv32 {
    if Low(c) then Xor(Half(c), REGISTER_DIVISOR) else Half(c)
  }

  /** A bit of the message added to the register before it is shifted. */
  function WithBit(c: bv32, b: bool): bv32 {
    if b then Xor(c, 1) else c
  }

  function Feed(c: bv32, bits: Polynomial): bv32
    decreases |bits|
  {
    if bits == [] then c else Feed(ShiftOut(WithBit(c, bits[0])), bits[1..])
  }

  lemma XorBits(a: bv32, b: bv32)
    ensures Half(Xor(a, b)) == Xor(Half(a), Half(b))
    ensures Low(Xor(a, b)) == (Low(a) != Low(b))
  {
  }

  lemma XorSwaps(a: bv32, b: bv32, c: bv32)
    ensures Xor(Xor(a, b), c) == Xor(Xor(a, c), b)
  {
    hide Xor;
    XorIs(a, b);
    XorIs(a ^ b, c);
    XorIs(a, c);
    XorIs(a ^ c, b);
    OrderOfXor(a, b, c);
  }

  lemma XorIs(a: bv32, b: bv32)
    ensures Xor(a, b) == a ^ b
  {
  }

  lemma OrderOfXor(a: bv32, b: bv32, c: bv32)
    ensures (a ^ b) ^ c == (a ^ c) ^ b
  {
  }

  lemma WithBitBits(c: bv32, b: bool)
    ensures Half(WithBit(c, b)) == Half(c) && Low(WithBit(c, b)) == (Low(c) != b)
  {
  }

  lemma {:induction false} BitsOfSum(a: bv32, b: bv32, k: nat)
    ensures BitsOf(Xor(a, b), k) == Sum(BitsOf(a, k), BitsOf(b, k))
    decreases k
  {
    hide Xor, Half, Low;
    if k > 0 {
      XorBits(a, b);
      BitsOfSum(Half(a), Half(b), k - 1);
    }
  }

  /** The word behind its k lowest bits. */
  function Behind(c: bv32, k: nat): bv32
    decreases k
  {
    if k == 0 then c else Behind(Half(c), k - 1)
  }

  lemma {:induction false} BitsOfParts(c: bv32, k: nat, l: nat)
    ensures BitsOf(c, k + l) == BitsOf(c, k) + BitsOf(Behind(c, k), l)
    decreases k
  {
    hide Half, Low;
    if k > 0 { BitsOfParts(Half(c), k - 1, l); }
  }

  lemma {:induction false} BehindMore(c: bv32, k: nat, l: nat)
    ensures Behind(Behind(c, k), l) == Behind(c, k + l)
    decreases k
  {
    hide Half;
    if k > 0 { BehindMore(Half(c), k - 1, l); }
  }

  lemma BehindEight(c: bv32)
    ensures Behind(c, 8) == c >> 8
  {
    assert Behind(c, 8) == Half(Half(Half(Half(Half(Half(Half(Half(c)))))))) by { hide Half; }
  }

  lemma NothingBehind(c: bv32)
    ensures Behind(c, 32) == 0
  {
    BehindEight(c);
    BehindEight(c >> 8);
    BehindEight((c >> 8) >> 8);
    BehindEight(((c >> 8) >> 8) >> 8);
    ShiftedAway(c);
    hide Behind;
    BehindMore(c, 8, 8);
    BehindMore(c, 16, 8);
    BehindMore(c, 24, 8);
  }

  lemma ShiftedAway(c: bv32)
    ensures (((c >> 8) >> 8) >> 8) >> 8 == 0
  {
  }

  lemma BitsOfShifted(c: bv32)
    ensures BitsOf(Half(c), 32) == BitsOf(c, 32)[1..] + [false]
  {
    NothingBehind(c);
    NoBit();
    RestOfBits(c, 31);
    hide Half, BitsOf, Behind;
    BitsOfParts(Half(c), 31, 1);
  }

  lemma NoBit()
    ensures BitsOf(0, 1) == [false]
  {
  }

  lemma RestOfBits(c: bv32, k: nat)
    ensures BitsOf(c, k + 1)[1..] == BitsOf(Half(c), k) && BitsOf(c, k + 1)[0] == Low(c)
    ensures Behind(c, k + 1) == Behind(Half(c), k)
  {
    hide Half, Low;
  }

  /** A word by its bytes. */
  lemma BitsByBytes(c: bv32, c8: bv32, c16: bv32, c24: bv32)
    requires c8 == c >> 8 && c16 == c8 >> 8 && c24 == c16 >> 8
    ensures BitsOf(c, 32) == BitsOf(c, 8) + (BitsOf(c8, 8) + (BitsOf(c16, 8) + BitsOf(c24, 8)))
  {
    BehindEight(c);
    BehindEight(c8);
    BehindEight(c16);
    hide BitsOf, Behind;
    BitsOfParts(c, 8, 24);
    BitsOfParts(c8, 8, 16);
    BitsOfParts(c16, 8, 8);
  }

  lemma FourBits(c: bv32)
    ensures BitsOf(c, 4) == [Low(c), Low(Half(c)), Low(Half(Half(c))), Low(Half(Half(Half(c))))]
  {
    hide Half, Low;
    var c2 := Half(Half(c));
    assert BitsOf(c2, 2) == [Low(c2), Low(Half(c2))] by { assert BitsOf(Half(c2), 1) == [Low(Half(c2))]; }
    assert BitsOf(c, 4) == [Low(c)] + ([Low(Half(c))] + BitsOf(c2, 2));
  }

  lemma BehindFour(c: bv32)
    ensures Behind(c, 4) == Half(Half(Half(Half(c))))
  {
    hide Half;
  }

  lemma EightBits(c: bv32, c4: bv32)
    requires c4 == Half(Half(Half(Half(c))))
    ensures BitsOf(c, 8)
         == [Low(c), Low(Half(c)), Low(Half(Half(c))), Low(Half(Half(Half(c)))),
             Low(c4), Low(Half(c4)), Low(Half(Half(c4))), Low(Half(Half(Half(c4))))]
  {
    hide Half, Low, BitsOf;
    BehindFour(c);
    hide Behind;
    BitsOfParts(c, 4, 4);
    FourBits(c);
    FourBits(c4);
  }

  lemma DivisorBytes()
    ensures BitsOf(0xedb8_8320, 8) == [false, false, false, false, false, true, false, false]
    ensures BitsOf(0x00ed_b883, 8) == [true, true, false, false, false, false, false, true]
    ensures BitsOf(0x0000_edb8, 8) == [false, false, false, true, true, true, false, true]
    ensures BitsOf(0x0000_00ed, 8) == [true, false, true, true, false, true, true, true]
  {
    EightBits(0xedb8_8320, 0x0edb_8832);
    EightBits(0x00ed_b883, 0x000e_db88);
    EightBits(0x0000_edb8, 0x0000_0edb);
    EightBits(0x0000_00ed, 0x0000_000e);
    hide BitsOf;
  }

  lemma DivisorBits()
    ensures BitsOf(REGISTER_DIVISOR, 32) == DIVISOR[1..]
  {
    BitsByBytes(0xedb8_8320, 0x00ed_b883, 0x0000_edb8, 0x0000_00ed);
    DivisorBytes();
    hide BitsOf;
  }

  // ---- the register is the remainder ----

  lemma AddedNothing(r: Polynomial)
    requires |r| == 32
    ensures Remainder(Added(r, Zeros(32))) == r
  {
    assert Added(r, Zeros(32)) == r;
  }

  /** One step of the division by hand, on a message whose head the register is added to. */
  lemma OneStep(r: Polynomial, p: Polynomial, next: Polynomial)
    requires |r| == 32 && |p| > 32 && |next| == 32
    requires next == if r[0] != p[0] then Sum(r[1..] + [false], DIVISOR[1..]) else r[1..] + [false]
    ensures Remainder(Added(r, p)) == Remainder(Added(next, p[1..]))
  {
    var q := Added(r, p);
    var rest := if q[0] then Sum(q[..33], DIVISOR)[1..] + q[33..] else q[1..];
    assert |rest| == |p| - 1;
    forall i | 0 <= i < |p| - 1 ensures rest[i] == Added(next, p[1..])[i] {
      assert q[i + 1] == if i < 31 then r[i + 1] != p[i + 1] else p[i + 1];
    }
    assert rest == Added(next, p[1..]);
  }

  lemma ShiftedRegister(c: bv32, b: bool)
    ensures var r, next := BitsOf(c, 32), BitsOf(ShiftOut(WithBit(c, b)), 32);
            next == if r[0] != b then Sum(r[1..] + [false], DIVISOR[1..]) else r[1..] + [false]
  {
    hide Half, Low, Xor, BitsOf, WithBit;
    RestOfBits(c, 31);
    BitsOfShifted(c);
    BitsOfSum(Half(c), REGISTER_DIVISOR, 32);
    DivisorBits();
    WithBitBits(c, b);
  }

  lemma {:induction false} RegisterIsRemainder(c: bv32, m: Polynomial)
    ensures BitsOf(Feed(c, m), 32) == Remainder(Added(BitsOf(c, 32), m + Zeros(32)))
    decreases |m|
  {
    hide BitsOf, ShiftOut, WithBit, Added, Sum;
    if m == [] {
      assert m + Zeros(32) == Zeros(32);
      AddedNothing(BitsOf(c, 32));
    } else {
      var next := ShiftOut(WithBit(c, m[0]));
      ShiftedRegister(c, m[0]);
      RegisterIsRemainder(next, m[1..]);
      assert (m + Zeros(32))[1..] == m[1..] + Zeros(32) && (m + Zeros(32))[0] == m[0];
      hide Remainder;
      OneStep(BitsOf(c, 32), m + Zeros(32), BitsOf(next, 32));
    }
  }

  // ---- bytes ----

  lemma ShiftOutSum(c: bv32, x: bv32)
    ensures ShiftOut(Xor(c, x)) == Xor(ShiftOut(WithBit(c, Low(x))), Half(x))
  {
    XorBits(c, x);
    WithBitBits(c, Low(x));
    XorSwaps(Half(c), Half(x), REGISTER_DIVISOR);
    hide Xor, Half, Low, WithBit;
  }

  /** Adding a byte before eight shifts is feeding its bits. */
  lemma {:induction false} ShiftsAreFed(c: bv32, x: bv32, k: nat)
    requires Behind(x, k) == 0
    ensures CrcBits(Xor(c, x), k) == Feed(c, BitsOf(x, k))
    decreases k
  {
    if k == 0 {
      assert c ^ 0 == c;
    } else {
      ShiftOutSum(c, x);
      OneShift(Xor(c, x), k);
      hide Xor, Half, Low, ShiftOut, CrcBits, WithBit;
      ShiftsAreFed(ShiftOut(WithBit(c, Low(x))), Half(x), k - 1);
      assert BitsOf(x, k)[0] == Low(x) && BitsOf(x, k)[1..] == BitsOf(Half(x), k - 1);
    }
  }

  lemma OneShift(c: bv32, k: nat)
    requires k > 0
    ensures CrcBits(c, k) == CrcBits(ShiftOut(c), k - 1)
  {
  }

  lemma {:induction false} FeedAppend(c: bv32, a: Polynomial, b: Polynomial)
    ensures Feed(c, a + b) == Feed(Feed(c, a), b)
    decreases |a|
  {
    hide ShiftOut, WithBit;
    if a == [] {
      assert a + b == b;
    } else {
      assert (a + b)[0] == a[0] && (a + b)[1..] == a[1..] + b;
      FeedAppend(ShiftOut(WithBit(c, a[0])), a[1..], b);
    }
  }

  lemma {:induction false} BytesAreFed(c: bv32, data: seq<byte>)
    ensures CrcBytes(c, data) == Feed(c, Message(data))
    decreases |data|
  {
    if data != [] {
      ByteIsFed(c, data[0]);
      BytesAreFed(CrcByte(c, data[0]), data[1..]);
      hide Feed, CrcByte, BitsOf;
      FeedAppend(c, BitsOf(data[0] as bv32, 8), Message(data[1..]));
    }
  }

  lemma ByteIsFed(c: bv32, b: byte)
    ensures CrcByte(c, b) == Feed(c, BitsOf(b as bv32, 8))
  {
    ByteIsSmall(b);
    BehindEight(b as bv32);
    hide Behind, CrcBits, Feed, BitsOf;
    ShiftsAreFed(c, b as bv32, 8);
  }

  lemma ByteIsSmall(b: byte)
    ensures (b as bv32) >> 8 == 0
  {
  }

  lemma AllOnes()
    ensures BitsOf(0xffff_ffff, 32) == Ones(32)
  {
    BitsByBytes(0xffff_ffff, 0x00ff_ffff, 0x0000_ffff, 0x0000_00ff);
    EightBits(0xffff_ffff, 0x0fff_ffff);
    EightBits(0x00ff_ffff, 0x000f_ffff);
    EightBits(0x0000_ffff, 0x0000_0fff);
    EightBits(0x0000_00ff, 0x0000_000f);
    hide BitsOf;
  }

  /**
   The check value of the standard, independently of the register: the message, followed by 32 zeros and its first 32
   coefficients inverted, is divided by the polynomial, and the remainder inverted again.
   */
  lemma CrcIsRemainder(data: seq<byte>)
    ensures BitsOf(Crc32(0, data), 32) == Sum(Remainder(Added(Ones(32), Message(data) + Zeros(32))), Ones(32))
  {
    var register := CrcBytes(0xffff_ffff, data);
    CrcFromOnes(data);
    hide BitsOf, CrcBytes, Feed, Remainder, Message, Crc32, Xor;
    BytesAreFed(0xffff_ffff, data);
    RegisterIsRemainder(0xffff_ffff, Message(data));
    AllOnes();
    BitsOfSum(register, 0xffff_ffff, 32);
  }

  lemma CrcFromOnes(data: seq<byte>)
    ensures Crc32(0, data) == Xor(CrcBytes(0xffff_ffff, data), 0xffff_ffff)
  {
    assert Complement(0) == 0xffff_ffff;
    hide CrcBytes;
  }

  // ---- the end of a file ----

  lemma FourBytes(c: bv32, b0: byte, b1: byte, b2: byte, b3: byte)
    ensures CrcBytes(c, [b0, b1, b2, b3]) == CrcByte(CrcByte(CrcByte(CrcByte(c, b0), b1), b2), b3)
  {
    hide CrcByte, CrcBytes;
    assert [b0, b1, b2, b3] == [b0] + ([b1] + ([b2] + [b3]));
    CrcBytesAppend(c, [b0], [b1] + ([b2] + [b3]));
    OneByte(c, b0);
    CrcBytesAppend(CrcByte(c, b0), [b1], [b2] + [b3]);
    OneByte(CrcByte(c, b0), b1);
    CrcBytesAppend(CrcByte(CrcByte(c, b0), b1), [b2], [b3]);
    OneByte(CrcByte(CrcByte(c, b0), b1), b2);
    OneByte(CrcByte(CrcByte(CrcByte(c, b0), b1), b2), b3);
  }

  lemma OneByte(c: bv32, b: byte)
    ensures CrcBytes(c, [b]) == CrcByte(c, b)
  {
    hide CrcByte;
    assert [b][1..] == [];
    assert CrcBytes(CrcByte(c, b), []) == CrcByte(c, b);
  }

  lemma FirstHalf()
    ensures CrcByte(0xffff_ffff, 73) == 0x22fd_e946 && CrcByte(0x22fd_e946, 69) == 0x992b_ac53
  {
  }

  lemma SecondHalf()
    ensures CrcByte(0x992b_ac53, 78) == 0x639f_4775 && CrcByte(0x639f_4775, 68) == 0x51bd_9f7d
  {
  }

  lemma EndValue()
    ensures Complement(0) == 0xffff_ffff && Complement(0x51bd_9f7d) == 0xae42_6082
  {
  }

  lemma EndField()
    ensures CrcField(0xae42_6082) == [174, 66, 96, 130]
  {
  }

  /** The check value of the last chunk, which is the same in every file. */
  lemma EndCheck()
    ensures CrcField(Crc32(0, [73, 69, 78, 68])) == [174, 66, 96, 130]
  {
    var data: seq<byte> := [73, 69, 78, 68];
    FromOnes(data);
    hide *;
    EndValue();
    EndField();
    FourBytes(0xffff_ffff, 73, 69, 78, 68);
    FirstHalf();
    SecondHalf();
    assert CrcBytes(0xffff_ffff, data) == 0x51bd_9f7d;
  }

  lemma FromOnes(data: seq<byte>)
    ensures Crc32(0, data) == Complement(CrcBytes(0xffff_ffff, data))
  {
    EndValue();
    hide Complement, CrcBytes;
  }
}
