/**
 * The Hilbert fragment: a 15-round recurrence on two state words v0 and v1
 * (the Lam-Shapiro construction for 16-bit coordinates), followed by an
 * interleave of the odd-position word it produces with i ^ j.
 */
module Hilbert {
  import opened Words
  import opened Interleave

  /** `~x & 0x0000FFFF`: the complement of the low 16 bits of x. */
  function Low16Not(x: Word): Word
  {
    And(Not(x), Low16)
  }

  datatype State = State(v0: Word, v1: Word)

  /**
   * One round of the recurrence. v1 is updated first; the v0 update then reads
   * the new v1 together with the old v0.
   */
  function Step(i: Word, j: Word, s: State): State
  {
    var heven, noti, notj := Xor(i, j), Low16Not(i), Low16Not(j);
    var temp := Xor(noti, j);
    var v1 := AShr(Or(And(s.v1, heven), And(Xor(s.v0, notj), temp)), 1);
    var v0 := AShr(Or(And(s.v0, Xor(v1, noti)), And(Not(s.v0), Xor(v1, notj))), 1);
    State(v0, v1)
  }

  /** The state after n rounds, starting from v0 = v1 = 0. */
  function Rounds(i: Word, j: Word, n: nat): State
  {
    if n == 0 then State(0, 0) else Step(i, j, Rounds(i, j, n - 1))
  }

  /** The word that provides the odd-position bits of the Hilbert index. */
  function HOdd(i: Word, j: Word, s: State): Word
  {
    Or(And(Not(s.v0), Xor(s.v1, i)), And(s.v0, Xor(s.v1, Low16Not(j))))
  }

  /** The Hilbert fragment as a function: 15 rounds, then the interleave. */
  function HilbertOffset(i: Word, j: Word): Word
  {
    InterleaveBits(HOdd(i, j, Rounds(i, j, 15)), Xor(i, j))
  }

  /** The fragment as the source runs it: a loop over k = 1 .. 15 reassigning v0 and v1. */
  method HilbertFragment(i: Word, j: Word) returns (r: Word)
    ensures r == HilbertOffset(i, j)
    ensures And(r, Evens) == SpreadBits(Xor(i, j))
  {
    var heven := Xor(i, j);
    var noti := And(Not(i), Low16);
    var notj := And(Not(j), Low16);
    var temp := Xor(noti, j);
    var v0: Word, v1: Word := 0, 0;
    for k := 1 to 16
      invariant State(v0, v1) == Rounds(i, j, k - 1)
    {
      v1 := AShr(Or(And(v1, heven), And(Xor(v0, notj), temp)), 1);
      v0 := AShr(Or(And(v0, Xor(v1, noti)), And(Not(v0), Xor(v1, notj))), 1);
    }
    var hodd := Or(And(Not(v0), Xor(v1, i)), And(v0, Xor(v1, notj)));
    r := InterleaveBits(hodd, heven);
    InterleaveSplit(hodd, heven);
  }

  // ---------------------------------------------------------------------------
  // Bounds

  lemma Low16NotBound(x: Word)
    ensures Low16Not(x) < 0x1_0000
  {
    Pow2Modulus();
    AndBelow(Not(x), Low16, 16);
  }

  /** `x >> 1` of a word below 2^16 is its half, below 2^15. */
  lemma HalveBound(x: Word)
    requires x < 0x1_0000
    ensures AShr(x, 1) == x / 2 < 0x8000
  {
    AShrOne(x);
  }

  /** The v1 update keeps v1 below 2^15 when v0 and v1 are. */
  lemma StepV1Bound(v0: Word, v1: Word, heven: Word, notj: Word, temp: Word)
    requires v0 < 0x8000 && v1 < 0x8000 && notj < 0x1_0000
    ensures AShr(Or(And(v1, heven), And(Xor(v0, notj), temp)), 1) < 0x8000
  {
    Pow2Modulus();
    AndBelow(v1, heven, 16);
    XorBelow(v0, notj, 16);
    AndBelow(Xor(v0, notj), temp, 16);
    OrBelow(And(v1, heven), And(Xor(v0, notj), temp), 16);
    HalveBound(Or(And(v1, heven), And(Xor(v0, notj), temp)));
  }

  /** The v0 update keeps v0 below 2^15 when v0 and the new v1 are. */
  lemma StepV0Bound(v0: Word, v1: Word, noti: Word, notj: Word)
    requires v0 < 0x8000 && v1 < 0x8000 && noti < 0x1_0000 && notj < 0x1_0000
    ensures AShr(Or(And(v0, Xor(v1, noti)), And(Not(v0), Xor(v1, notj))), 1) < 0x8000
  {
    Pow2Modulus();
    AndBelow(v0, Xor(v1, noti), 16);
    XorBelow(v1, notj, 16);
    AndBelow(Not(v0), Xor(v1, notj), 16);
    OrBelow(And(v0, Xor(v1, noti)), And(Not(v0), Xor(v1, notj)), 16);
    HalveBound(Or(And(v0, Xor(v1, noti)), And(Not(v0), Xor(v1, notj))));
  }

  /** Both state words stay below 2^15 after every round, whatever i and j are. */
  lemma {:induction false} RoundsBound(i: Word, j: Word, n: nat)
    ensures Rounds(i, j, n).v0 < 0x8000 && Rounds(i, j, n).v1 < 0x8000
  {
    if n > 0 {
      RoundsBound(i, j, n - 1);
      var s := Rounds(i, j, n - 1);
      Low16NotBound(i);
      Low16NotBound(j);
      var heven, noti, notj := Xor(i, j), Low16Not(i), Low16Not(j);
      StepV1Bound(s.v0, s.v1, heven, notj, Xor(noti, j));
      var v1 := AShr(Or(And(s.v1, heven), And(Xor(s.v0, notj), Xor(noti, j))), 1);
      StepV0Bound(s.v0, v1, noti, notj);
    }
  }

  /** For 16-bit coordinates the odd-position word is a 16-bit value too. */
  lemma HOddBound(i: Word, j: Word)
    requires i < 0x1_0000
    ensures HOdd(i, j, Rounds(i, j, 15)) < 0x1_0000
  {
    Pow2Modulus();
    var s := Rounds(i, j, 15);
    RoundsBound(i, j, 15);
    Low16NotBound(j);
    XorBelow(s.v1, i, 16);
    AndBelow(Not(s.v0), Xor(s.v1, i), 16);
    XorBelow(s.v1, Low16Not(j), 16);
    AndBelow(s.v0, Xor(s.v1, Low16Not(j)), 16);
    OrBelow(And(Not(s.v0), Xor(s.v1, i)), And(s.v0, Xor(s.v1, Low16Not(j))), 16);
  }

  /** The even-position bits of the Hilbert index spell the spread of i ^ j, the odd ones the spread of hodd. */
  lemma HilbertBits(i: Word, j: Word)
    ensures And(HilbertOffset(i, j), Evens) == SpreadBits(Xor(i, j))
    ensures And(HilbertOffset(i, j), Odds) == Shl(SpreadBits(HOdd(i, j, Rounds(i, j, 15))), 1)
  {
    InterleaveSplit(HOdd(i, j, Rounds(i, j, 15)), Xor(i, j));
  }
}
