/**
 * The bit-interleaving helper behind the Z-Morton and Hilbert layouts.
 * `InterleaveBits(i, j)` spreads the low bits of j onto the even positions and those
 * of i onto the odd positions, using two shift-and-mask steps (shift 2 under mask
 * 0x33333333, then shift 1 under mask 0x55555555). Two steps spread four bits, so the
 * result is the Morton code only for inputs below 16.
 */
module Interleave {
  import opened Words

  /** `v & ((n << s) | n)`. */
  function ShiftMask(n: Word, s: Word, v: Word): Word
  {
    And(v, Or(Shl(n, s), n))
  }

  /** The low 16 bits of x, spread by the two shift-and-mask steps. */
  function SpreadBits(x: Word): Word
  {
    ShiftMask(ShiftMask(And(x, Low16), 2, Pairs), 1, Evens)
  }

  /** Bits of j on the even positions, bits of i on the odd positions. */
  function InterleaveBits(i: Word, j: Word): Word
  {
    Or(SpreadBits(j), Shl(SpreadBits(i), 1))
  }

  // ---------------------------------------------------------------------------
  // Reference definitions: the Morton code and its inverse

  /** The Morton code of the low n bits of i and j: bit k of j at 2k, bit k of i at 2k+1. */
  function Morton(i: nat, j: nat, n: nat): (r: nat)
    ensures r < Pow2(2 * n)
  {
    if n == 0 then 0
    else
      var r := j % 2 + 2 * (i % 2) + 4 * Morton(i / 2, j / 2, n - 1);
      assert Pow2(2 * n) == 4 * Pow2(2 * (n - 1));
      r
  }

  /** Gathers the bits at the even positions 0, 2, ..., 2n-2 of r. */
  function Compact(r: nat, n: nat): (x: nat)
    ensures x < Pow2(n)
  {
    if n == 0 then 0 else r % 2 + 2 * Compact(r / 4, n - 1)
  }

  /** Undoes a Morton code of width n: the odd-position bits, then the even-position bits. */
  function Unmorton(r: nat, n: nat): (nat, nat)
  {
    (Compact(r / 2, n), Compact(r, n))
  }

  lemma {:induction false} MortonBit(i: nat, j: nat, n: nat, k: nat)
    ensures Bit(Morton(i, j, n), k) == (k / 2 < n && if k % 2 == 0 then Bit(j, k / 2) else Bit(i, k / 2))
  {
    if n == 0 {
      BitOfZero(k);
    } else {
      var u := j % 2 + 2 * (i % 2);
      assert Pow2(2) == 4;
      BitShiftedAdd(u, 2, Morton(i / 2, j / 2, n - 1), k);
      if k >= 2 {
        MortonBit(i / 2, j / 2, n - 1, k - 2);
        assert Bit(j, k / 2) == Bit(j / 2, k / 2 - 1);
        assert Bit(i, k / 2) == Bit(i / 2, k / 2 - 1);
      } else if k == 1 {
        assert Bit(u, 1) == Bit(u / 2, 0);
      }
    }
  }

  /** The digits of a Morton step: the low two bits, then the rest. */
  lemma MortonStep(a: nat, b: nat, m: nat)
    requires a < 2 && b < 2
    ensures (a + 2 * b + 4 * m) % 2 == a && (a + 2 * b + 4 * m) / 4 == m
    ensures ((a + 2 * b + 4 * m) / 2) % 2 == b && ((a + 2 * b + 4 * m) / 2) / 4 == m / 2
  {
  }

  /** Compact of the Morton code recovers each coordinate below 2^n. */
  lemma {:induction false} CompactMorton(i: nat, j: nat, n: nat)
    requires i < Pow2(n) && j < Pow2(n)
    ensures Compact(Morton(i, j, n), n) == j
    ensures Compact(Morton(i, j, n) / 2, n) == i
  {
    if n > 0 {
      var a, b := j % 2, i % 2;
      var m := Morton(i / 2, j / 2, n - 1);
      var r := Morton(i, j, n);
      assert r == a + 2 * b + 4 * m;
      HalfBelow(i, n);
      HalfBelow(j, n);
      CompactMorton(i / 2, j / 2, n - 1);
      MortonStep(a, b, m);
      assert Compact(r, n) == r % 2 + 2 * Compact(r / 4, n - 1);
      assert Compact(r / 2, n) == (r / 2) % 2 + 2 * Compact(r / 2 / 4, n - 1);
    }
  }

  lemma HalfBelow(x: nat, n: nat)
    requires 0 < n && x < Pow2(n)
    ensures x / 2 < Pow2(n - 1)
  {
  }

  /** Unmorton inverts Morton on coordinates below 2^n. */
  lemma UnmortonMorton(i: nat, j: nat, n: nat)
    requires i < Pow2(n) && j < Pow2(n)
    ensures Unmorton(Morton(i, j, n), n) == (i, j)
  {
    CompactMorton(i, j, n);
  }

  // ---------------------------------------------------------------------------
  // What the two shift-and-mask steps do, bit by bit, for every input

  /** Bit p of the first step's result `0x33333333 & ((n << 2) | n)` with n = x & 0xFFFF. */
  predicate FirstStepBit(x: Word, p: nat)
  {
    p < 32 && p % 4 < 2 && ((p < 16 && Bit(x, p)) || (2 <= p < 18 && Bit(x, p - 2)))
  }

  lemma FirstStepBits(x: Word, p: nat)
    ensures Bit(ShiftMask(And(x, Low16), 2, Pairs), p) == FirstStepBit(x, p)
  {
    var n := And(x, Low16);
    AndBit(Pairs, Or(Shl(n, 2), n), p);
    OrBit(Shl(n, 2), n, p);
    ShlBit(n, 2, p);
    MaskBits(p);
    AndBit(x, Low16, p);
    if p >= 2 {
      AndBit(x, Low16, p - 2);
      MaskBits(p - 2);
    }
  }

  /** Bit k of SpreadBits(x): only even positions below 32, each fed by one or two bits of x. */
  lemma SpreadBitsBit(x: Word, k: nat)
    ensures Bit(SpreadBits(x), k) == (k < 32 && k % 2 == 0 && (FirstStepBit(x, k) || (k >= 1 && FirstStepBit(x, k - 1))))
  {
    var t := ShiftMask(And(x, Low16), 2, Pairs);
    AndBit(Evens, Or(Shl(t, 1), t), k);
    OrBit(Shl(t, 1), t, k);
    ShlBit(t, 1, k);
    MaskBits(k);
    FirstStepBits(x, k);
    if k >= 1 {
      FirstStepBits(x, k - 1);
    }
  }

  /** SpreadBits only sets even positions below 32. */
  lemma SpreadBitsEven(x: Word, k: nat)
    ensures Bit(SpreadBits(x), k) ==> k < 32 && k % 2 == 0
  {
    var t := ShiftMask(And(x, Low16), 2, Pairs);
    AndBit(Evens, Or(Shl(t, 1), t), k);
    MaskBits(k);
  }

  lemma InterleaveSplitBit(i: Word, j: Word, k: nat)
    ensures Bit(And(InterleaveBits(i, j), Evens), k) == Bit(SpreadBits(j), k)
    ensures Bit(And(InterleaveBits(i, j), Odds), k) == Bit(Shl(SpreadBits(i), 1), k)
  {
    SpreadBitsEven(j, k);
    if k >= 1 {
      SpreadBitsEven(i, k - 1);
    }
    SplitBit(SpreadBits(i), SpreadBits(j), k);
  }

  /** Or-ing an even-only word with an even-only word shifted by one keeps both apart. */
  lemma SplitBit(si: Word, sj: Word, k: nat)
    requires Bit(sj, k) ==> k < 32 && k % 2 == 0
    requires k >= 1 && Bit(si, k - 1) ==> (k - 1) % 2 == 0
    ensures Bit(And(Or(sj, Shl(si, 1)), Evens), k) == Bit(sj, k)
    ensures Bit(And(Or(sj, Shl(si, 1)), Odds), k) == Bit(Shl(si, 1), k)
  {
    var t := Shl(si, 1);
    ShlBit(si, 1, k);
    OrBit(sj, t, k);
    MaskBits(k);
    AndBit(Or(sj, t), Evens, k);
    AndBit(Or(sj, t), Odds, k);
  }

  /** For every input, the even bits of the result are SpreadBits(j) and the odd bits are SpreadBits(i) shifted by one. */
  lemma InterleaveSplit(i: Word, j: Word)
    ensures And(InterleaveBits(i, j), Evens) == SpreadBits(j)
    ensures And(InterleaveBits(i, j), Odds) == Shl(SpreadBits(i), 1)
  {
    forall k | 0 <= k < 32 {
      InterleaveSplitBit(i, j, k);
    }
    WordsEqual(And(InterleaveBits(i, j), Evens), SpreadBits(j));
    WordsEqual(And(InterleaveBits(i, j), Odds), Shl(SpreadBits(i), 1));
  }

  lemma SmallWordBit(x: Word, k: nat)
    requires x < 16 && k >= 4
    ensures !Bit(x, k)
  {
    Pow2Modulus();
    BitHigh(x, 4, k);
  }

  lemma FirstStepSmall(x: Word, p: nat)
    requires x < 16
    ensures FirstStepBit(x, p) == ((p < 2 && Bit(x, p)) || (4 <= p < 6 && Bit(x, p - 2)))
  {
    if p >= 4 { SmallWordBit(x, p); }
    if p >= 6 { SmallWordBit(x, p - 2); }
  }

  /** Bit k of a word spread from a 4-bit x by the two steps is bit k/2 of x on even k below 8. */
  lemma SpreadSmallBit(x: Word, s: Word, k: nat)
    requires x < 16
    requires Bit(s, k) == (k < 32 && k % 2 == 0 && (FirstStepBit(x, k) || (k >= 1 && FirstStepBit(x, k - 1))))
    ensures Bit(s, k) == (k % 2 == 0 && k / 2 < 4 && Bit(x, k / 2))
  {
    FirstStepSmall(x, k);
    if k >= 1 {
      FirstStepSmall(x, k - 1);
    }
    if k / 2 >= 4 {
      SmallWordBit(x, k / 2);
    }
  }

  /** On 4-bit inputs, SpreadBits puts bit m of x at position 2m. */
  lemma SpreadBitsSmall(x: Word, k: nat)
    requires x < 16
    ensures Bit(SpreadBits(x), k) == (k % 2 == 0 && k / 2 < 4 && Bit(x, k / 2))
  {
    SpreadBitsBit(x, k);
    SpreadSmallBit(x, SpreadBits(x), k);
  }

  /** On 4-bit inputs, bit k of the result is bit k/2 of j on even k and of i on odd k, for k below 8. */
  lemma InterleaveSmallBit(i: Word, j: Word, k: nat)
    requires i < 16 && j < 16
    ensures Bit(InterleaveBits(i, j), k) == (k / 2 < 4 && if k % 2 == 0 then Bit(j, k / 2) else Bit(i, k / 2))
  {
    SpreadBitsSmall(j, k);
    if k >= 1 {
      SpreadBitsSmall(i, k - 1);
    }
    MergeSpreadBit(SpreadBits(i), SpreadBits(j), i, j, k);
  }

  /** `sj | (si << 1)` for words si, sj that hold x and y spread onto the even positions. */
  lemma MergeSpreadBit(si: Word, sj: Word, x: Word, y: Word, k: nat)
    requires Bit(sj, k) == (k % 2 == 0 && k / 2 < 4 && Bit(y, k / 2))
    requires k >= 1 ==> Bit(si, k - 1) == ((k - 1) % 2 == 0 && (k - 1) / 2 < 4 && Bit(x, (k - 1) / 2))
    ensures Bit(Or(sj, Shl(si, 1)), k) == (k / 2 < 4 && if k % 2 == 0 then Bit(y, k / 2) else Bit(x, k / 2))
  {
    OrBit(sj, Shl(si, 1), k);
    ShlBit(si, 1, k);
  }

  /** For i, j below 16, InterleaveBits is the Morton code; in particular it is below 256. */
  lemma InterleaveMorton(i: Word, j: Word)
    requires i < 16 && j < 16
    ensures InterleaveBits(i, j) == Morton(i, j, 4)
    ensures InterleaveBits(i, j) < 256
  {
    Pow2Modulus();
    var m := Morton(i, j, 4);
    assert m < 256;
    forall k | 0 <= k < 32
      ensures Bit(InterleaveBits(i, j), k) == Bit(m, k)
    {
      InterleaveSmallBit(i, j, k);
      MortonBit(i, j, 4, k);
    }
    WordsEqual(InterleaveBits(i, j), m);
  }

  /** For i, j below 16 the interleaved code determines both coordinates. */
  lemma InterleaveRoundTrip(i: Word, j: Word)
    requires i < 16 && j < 16
    ensures Unmorton(InterleaveBits(i, j), 4) == (i, j)
  {
    Pow2Modulus();
    InterleaveMorton(i, j);
    UnmortonMorton(i, j, 4);
  }

  /** InterleaveBits is injective on [0, 16) x [0, 16). */
  lemma InterleaveInjective(i: Word, j: Word, i': Word, j': Word)
    requires i < 16 && j < 16 && i' < 16 && j' < 16
    requires InterleaveBits(i, j) == InterleaveBits(i', j')
    ensures i == i' && j == j'
  {
    InterleaveRoundTrip(i, j);
    InterleaveRoundTrip(i', j');
  }

  /** SpreadBits depends on its input only through the bits of the first step. */
  lemma SpreadBitsCongruent(x: Word, y: Word)
    requires forall p: nat :: p < 32 ==> FirstStepBit(x, p) == FirstStepBit(y, p)
    ensures SpreadBits(x) == SpreadBits(y)
  {
    forall k | 0 <= k < 32
      ensures Bit(SpreadBits(x), k) == Bit(SpreadBits(y), k)
    {
      SpreadBitsBit(x, k);
      SpreadBitsBit(y, k);
    }
    WordsEqual(SpreadBits(x), SpreadBits(y));
  }

  lemma PowerBits(p: nat)
    ensures Bit(4, p) == (p == 2) && Bit(16, p) == (p == 4)
  {
    Pow2Modulus();
    assert 4 == 1 * Pow2(2) && 16 == 1 * Pow2(4);
    BitTimesPow2(1, 2, p);
    BitTimesPow2(1, 4, p);
    if p >= 2 { OneBit(p - 2); }
    if p >= 4 { OneBit(p - 4); }
  }

  /** 4 and 16 spread to the same word: bit 4 of an input lands where bit 2 does. */
  lemma SpreadCollision()
    ensures SpreadBits(4) == SpreadBits(16)
    ensures InterleaveBits(0, 4) == InterleaveBits(0, 16)
  {
    forall p: nat | p < 32
      ensures FirstStepBit(4, p) == FirstStepBit(16, p)
    {
      PowerBits(p);
      if p >= 2 { PowerBits(p - 2); }
    }
    SpreadBitsCongruent(4, 16);
  }

  /** The declaration Z(4,4,1) evaluated at (3, 7). */
  lemma InterleaveExample()
    ensures InterleaveBits(3, 7) == 31
  {
    InterleaveMorton(3, 7);
  }
}
