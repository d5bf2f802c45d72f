/** The random offsets of the benchmark: the generator's state step, and the places it may ask for. */
module Xorshift {
  import opened Bytes

  datatype Words = Words(x: bv32, y: bv32, z: bv32, w: bv32)

  const SEED: Words := Words(123456789, 362436069, 521288629, 88675123)

  const ZERO: Words := Words(0, 0, 0, 0)

  function Mix(x: bv32): bv32 { x ^ (x << 11) }

  function Spread(w: bv32): bv32 { w ^ (w >> 19) }

  function Scatter(t: bv32): bv32 { t ^ (t >> 8) }

  function Join(a: bv32, b: bv32): bv32 { a ^ b }

  function Unmix(t: bv32): bv32 { t ^ (t << 11) ^ (t << 22) }

  function Unright(u: bv32): bv32 { u ^ (u >> 8) ^ (u >> 16) ^ (u >> 24) }

  function Next(s: Words): Words {
    var t := Mix(s.x);
    Words(s.y, s.z, s.w, Join(Spread(s.w), Scatter(t)))
  }

  /** The step run backwards. */
  function Previous(s: Words): Words {
    Words(Unmix(Unright(Join(s.w, Spread(s.z)))), s.x, s.y, s.z)
  }

  lemma RightShiftUndone(t: bv32)
    ensures Unright(t ^ (t >> 8)) == t
  {
  }

  lemma RightShiftRedone(t: bv32)
    ensures Scatter(t ^ (t >> 8) ^ (t >> 16) ^ (t >> 24)) == t
  {
  }

  lemma UnrightAfterScatter(t: bv32)
    ensures Unright(Scatter(t)) == t
  {
    hide Unright;
    RightShiftUndone(t);
  }

  lemma ScatterAfterUnright(u: bv32)
    ensures Scatter(Unright(u)) == u
  {
    hide Scatter;
    RightShiftRedone(u);
  }

  lemma LeftShiftUndone(x: bv32)
    ensures Unmix(x ^ (x << 11)) == x
  {
  }

  lemma LeftShiftRedone(t: bv32)
    ensures Mix(t ^ (t << 11) ^ (t << 22)) == t
  {
  }

  lemma UnmixAfterMix(x: bv32)
    ensures Unmix(Mix(x)) == x
  {
    hide Unmix;
    LeftShiftUndone(x);
  }

  lemma MixAfterUnmix(t: bv32)
    ensures Mix(Unmix(t)) == t
  {
    hide Mix;
    LeftShiftRedone(t);
  }

  lemma Cancels(a: bv32, b: bv32)
    ensures Join(Join(a, b), a) == b && Join(a, Join(b, a)) == b
  {
  }

  /** Every state has exactly one predecessor. */
  lemma StepIsInvertible(s: Words)
    ensures Previous(Next(s)) == s
    ensures Next(Previous(s)) == s
  {
    hide Mix, Unmix, Spread, Unright, Join, Scatter;
    var t := Mix(s.x);
    Cancels(Spread(s.w), Scatter(t));
    UnrightAfterScatter(t);
    UnmixAfterMix(s.x);
    var u := Join(s.w, Spread(s.z));
    ScatterAfterUnright(u);
    MixAfterUnmix(Unright(u));
    Cancels(Spread(s.z), s.w);
  }

  function After(s: Words, n: nat): Words {
    if n == 0 then s else Next(After(s, n - 1))
  }

  /** Different states stay different for ever. */
  lemma {:induction false} StatesNeverMerge(a: Words, b: Words, n: nat)
    requires After(a, n) == After(b, n)
    ensures a == b
  {
    if n > 0 {
      StepIsInvertible(After(a, n - 1));
      StepIsInvertible(After(b, n - 1));
      StatesNeverMerge(a, b, n - 1);
    }
  }

  /** Zero leads to zero, so nothing else does: the seeded generator never gets stuck. */
  lemma {:induction false} NeverAllZero(n: nat)
    ensures After(SEED, n) != ZERO
  {
    ZeroStays(n);
    if After(SEED, n) == ZERO {
      StatesNeverMerge(SEED, ZERO, n);
    }
  }

  lemma {:induction false} ZeroStays(n: nat)
    ensures After(ZERO, n) == ZERO
  {
    if n > 0 { ZeroStays(n - 1); }
  }

  /** The first numbers drawn. */
  lemma FirstDraws()
    ensures After(SEED, 1).w == 3701687786 && After(SEED, 2).w == 458299110
    ensures After(SEED, 3).w == 2500872618 && After(SEED, 4).w == 3633119408
  {
  }

  /** The generator: its four words are rewritten at every draw. */
  class Xor128 {
    var x: bv32
    var y: bv32
    var z: bv32
    var w: bv32

    ghost function View(): Words
      reads this
    {
      Words(x, y, z, w)
    }

    constructor ()
      ensures View() == SEED
    {
      x, y, z, w := 123456789, 362436069, 521288629, 88675123;
    }

    method Draw() returns (r: bv32)
      modifies this
      ensures View() == Next(old(View())) && r == w
    {
      hide Mix, Spread, Scatter, Join;
      var t := Mix(x);
      x := y;
      y := z;
      z := w;
      w := Join(Spread(w), Scatter(t));
      r := w;
    }
  }

  // ---- offsets ----

  const MB: nat := 1024 * 1024

  /** The test size in bytes: a 32-bit unsigned product. */
  function DiskTestSize(megabytes: nat): nat { megabytes * MB % WRAP }

  /** How many blocks of the given number of kilobytes the offsets are drawn from; other block sizes are not used. */
  function SplitOf(testSize: nat, kilobytes: nat): nat {
    if kilobytes == 512 then 2 * (testSize / 1024 / 1024) else 256 * (testSize / 1024 / 1024)
  }

  /** The offset of a request, as a 32-bit product. */
  function Offset(draw: nat, split: nat, bufSize: nat): nat
    requires split != 0
  {
    draw % split * bufSize % WRAP
  }

  /**
   Offsets can be drawn exactly when the size in megabytes is no multiple of 4096, and then every one is a whole block
   inside the test file that lost nothing to the 32-bit product.
   */
  lemma OffsetsAreWholeBlocks(megabytes: nat, kilobytes: nat, draw: nat)
    requires kilobytes == 512 || kilobytes == 4
    ensures var size, bufSize := DiskTestSize(megabytes), kilobytes * 1024;
            var split := SplitOf(size, kilobytes);
            && (split != 0 <==> megabytes % 4096 != 0)
            && (split != 0 ==>
                  && Offset(draw, split, bufSize) == draw % split * bufSize
                  && Offset(draw, split, bufSize) % bufSize == 0
                  && Offset(draw, split, bufSize) + bufSize <= size)
  {
    var size, bufSize := DiskTestSize(megabytes), kilobytes * 1024;
    var m := megabytes % 4096;
    SizeIsWholeMegabytes(megabytes);
    assert size / 1024 / 1024 == m;
    var split := SplitOf(size, kilobytes);
    if split != 0 {
      var k := draw % split;
      assert k + 1 <= split;
      if kilobytes == 512 {
        assert k * 0x8_0000 + 0x8_0000 <= split * 0x8_0000 == size;
        assert k * 0x8_0000 % 0x8_0000 == 0;
      } else {
        assert k * 4096 + 4096 <= split * 4096 == size;
        assert k * 4096 % 4096 == 0;
      }
    }
  }

  /** And every whole block of the file is the offset of some draw. */
  lemma EveryBlockIsDrawn(megabytes: nat, kilobytes: nat, block: nat)
    requires kilobytes == 512 || kilobytes == 4
    requires (block + 1) * (kilobytes * 1024) <= megabytes % 4096 * 1048576
    ensures var split := SplitOf(DiskTestSize(megabytes), kilobytes);
            split != 0 && block < 0x1_0000_0000 && Offset(block, split, kilobytes * 1024) == block * (kilobytes * 1024)
  {
    SizeIsWholeMegabytes(megabytes);
    var size, m := DiskTestSize(megabytes), megabytes % 4096;
    assert size == m * 1048576;
    hide DiskTestSize;
    if kilobytes == 512 {
      LargeBlock(size, m, block);
    } else {
      SmallBlock(size, m, block);
    }
    hide SplitOf, Offset;
  }

  lemma LargeBlock(size: nat, m: nat, block: nat)
    requires size == m * 1048576 && m < 4096 && (block + 1) * 524288 <= size
    ensures var split := SplitOf(size, 512);
            split != 0 && block < 0x1_0000_0000 && Offset(block, split, 524288) == block * 524288
  {
    assert SplitOf(size, 512) == 2 * m by { assert size / 1024 / 1024 == m; }
    hide SplitOf;
    BlockOffset(block, 2 * m, 524288, block * 524288);
  }

  lemma SmallBlock(size: nat, m: nat, block: nat)
    requires size == m * 1048576 && m < 4096 && (block + 1) * 4096 <= size
    ensures var split := SplitOf(size, 4);
            split != 0 && block < 0x1_0000_0000 && Offset(block, split, 4096) == block * 4096
  {
    assert SplitOf(size, 4) == 256 * m by { assert size / 1024 / 1024 == m; }
    hide SplitOf;
    BlockOffset(block, 256 * m, 4096, block * 4096);
  }

  lemma BlockOffset(block: nat, split: nat, bufSize: nat, offset: nat)
    requires block < split && offset == block * bufSize < WRAP
    ensures Offset(block, split, bufSize) == offset
  {
    SmallRemainder(block, split);
  }

  lemma SmallRemainder(a: nat, b: nat)
    requires a < b
    ensures a % b == a
  {
  }

  lemma SizeIsWholeMegabytes(megabytes: nat)
    ensures DiskTestSize(megabytes) == megabytes % 4096 * MB
  {
    var q, m := megabytes / 4096, megabytes % 4096;
    assert megabytes * MB == q * WRAP + m * MB;
    assert 0 <= m * MB < WRAP;
  }
}
