/**
 * The 32-bit bit-vector arithmetic the layout library is written in.
 * Every value is a z3 bit-vector of width 32; here it is the unsigned integer it
 * denotes, and each operator is defined as z3 (SMT-LIB) defines it: `+` and `*` wrap
 * around, `/` is signed division (bvsdiv), `%` is signed modulus (bvsmod), `>>` is the
 * arithmetic shift (bvashr), `<<` the left shift (bvshl); `&`, `|`, `^`, `~` act bit by bit.
 */
module Words {

  const Modulus: int := 0x1_0000_0000
  const SignBit: int := 0x8000_0000

  /** A 32-bit bit-vector, read as an unsigned integer. */
  type Word = x: int | 0 <= x < Modulus

  function Pow2(n: nat): (r: nat)
    ensures r > 0
  {
    if n == 0 then 1 else 2 * Pow2(n - 1)
  }

  lemma {:induction false} Pow2Add(a: nat, b: nat)
    ensures Pow2(a + b) == Pow2(a) * Pow2(b)
  {
    if a > 0 {
      Pow2Add(a - 1, b);
    }
  }

  lemma Pow2Modulus()
    ensures Pow2(32) == Modulus && Pow2(31) == SignBit && Pow2(16) == 0x1_0000 && Pow2(15) == 0x8000
    ensures Pow2(8) == 0x100 && Pow2(4) == 16 && Pow2(2) == 4 && Pow2(1) == 2
  {
    assert Pow2(1) == 2;
    assert Pow2(2) == 4;
    Pow2Add(2, 2);
    Pow2Add(4, 4);
    Pow2Add(8, 8);
    Pow2Add(16, 16);
    assert Pow2(16) == 2 * Pow2(15);
    assert Pow2(32) == 2 * Pow2(31);
  }

  /** Reduction modulo 2^32: the wrap-around of every arithmetic operator. */
  function Wrap(n: int): Word
  {
    n % Modulus
  }

  /** The two's-complement reading of a word. */
  function Signed(a: Word): int
  {
    if a < SignBit then a else a - Modulus
  }

  function Add(a: Word, b: Word): Word
  {
    Wrap(a + b)
  }

  function Mul(a: Word, b: Word): Word
  {
    Wrap(a * b)
  }

  function Abs(x: int): nat
  {
    if x < 0 then -x else x
  }

  /** Integer division rounding toward zero. */
  function Quot(x: int, y: int): int
    requires y != 0
  {
    if (x >= 0) == (y > 0) then Abs(x) / Abs(y) else -(Abs(x) / Abs(y))
  }

  /** Remainder whose sign follows the divisor (floored modulus). */
  function FloorMod(x: int, y: int): int
    requires y != 0
  {
    if y > 0 || x % y == 0 then x % y else x % y + y
  }

  /** z3's `/` on bit-vectors (bvsdiv); division by zero is defined, not an error. */
  function SDiv(a: Word, b: Word): Word
  {
    if b == 0 then (if a < SignBit then Modulus - 1 else 1)
    else Wrap(Quot(Signed(a), Signed(b)))
  }

  /** z3's `%` on bit-vectors (bvsmod); modulus by zero gives the dividend. */
  function SMod(a: Word, b: Word): Word
  {
    if b == 0 then a else Wrap(FloorMod(Signed(a), Signed(b)))
  }

  /** z3's `<<` (bvshl): shifting by 32 or more gives 0. */
  function Shl(a: Word, s: Word): Word
  {
    if s >= 32 then 0 else ShiftLeft(a, s)
  }

  /** s doublings, each wrapped to 32 bits: a * 2^s modulo 2^32. */
  function ShiftLeft(a: Word, s: nat): Word
  {
    if s == 0 then a else Wrap(2 * ShiftLeft(a, s - 1))
  }

  /** z3's `>>` (bvashr): the sign bit is copied into the vacated positions. */
  function AShr(a: Word, s: Word): Word
  {
    Wrap(Signed(a) / Pow2(if s >= 32 then 32 else s))
  }

  /** Bit k of x (bit 0 is the least significant). */
  predicate Bit(x: nat, k: nat)
    decreases k
  {
    if k == 0 then x % 2 == 1 else Bit(x / 2, k - 1)
  }

  datatype BitOp = AndOp | OrOp | XorOp | NotOp

  predicate Combine(op: BitOp, x: bool, y: bool)
  {
    match op
    case AndOp => x && y
    case OrOp => x || y
    case XorOp => x != y
    case NotOp => !x
  }

  /** The low n bits of a and b combined position by position. */
  function Bitwise(op: BitOp, a: nat, b: nat, n: nat): (r: nat)
    ensures r < Pow2(n)
  {
    if n == 0 then 0
    else 2 * Bitwise(op, a / 2, b / 2, n - 1) + (if Combine(op, a % 2 == 1, b % 2 == 1) then 1 else 0)
  }

  function And(a: Word, b: Word): Word
  {
    Pow2Modulus(); Bitwise(AndOp, a, b, 32)
  }

  function Or(a: Word, b: Word): Word
  {
    Pow2Modulus(); Bitwise(OrOp, a, b, 32)
  }

  function Xor(a: Word, b: Word): Word
  {
    Pow2Modulus(); Bitwise(XorOp, a, b, 32)
  }

  function Not(a: Word): Word
  {
    Pow2Modulus(); Bitwise(NotOp, a, 0, 32)
  }

  // ---------------------------------------------------------------------------
  // Bits

  lemma {:induction false} BitOfZero(k: nat)
    ensures !Bit(0, k)
  {
    if k > 0 { BitOfZero(k - 1); }
  }

  lemma {:induction false} BitwiseBit(op: BitOp, a: nat, b: nat, n: nat, k: nat)
    ensures Bit(Bitwise(op, a, b, n), k) == (k < n && Combine(op, Bit(a, k), Bit(b, k)))
  {
    if n == 0 {
      BitOfZero(k);
    } else if k > 0 {
      BitwiseBit(op, a / 2, b / 2, n - 1, k - 1);
    }
  }

  /** A number below 2^n has no bit at position n or above. */
  lemma {:induction false} BitHigh(x: nat, n: nat, k: nat)
    requires x < Pow2(n) && n <= k
    ensures !Bit(x, k)
  {
    if n == 0 {
      assert x == 0;
      BitOfZero(k);
    } else {
      BitHigh(x / 2, n - 1, k - 1);
    }
  }

  /** Two numbers below 2^n that agree on their low n bits are equal. */
  lemma {:induction false} BitsDetermine(x: nat, y: nat, n: nat)
    requires x < Pow2(n) && y < Pow2(n)
    requires forall k :: 0 <= k < n ==> Bit(x, k) == Bit(y, k)
    ensures x == y
  {
    if n > 0 {
      assert Bit(x, 0) == Bit(y, 0);
      forall k | 0 <= k < n - 1
        ensures Bit(x / 2, k) == Bit(y / 2, k)
      {
        assert Bit(x, k + 1) == Bit(y, k + 1);
      }
      BitsDetermine(x / 2, y / 2, n - 1);
    }
  }

  /** A number below 2^m with no bit in [n, m) is below 2^n. */
  lemma {:induction false} BitsBelow(x: nat, n: nat, m: nat)
    requires n <= m && x < Pow2(m)
    requires forall k :: n <= k < m ==> !Bit(x, k)
    ensures x < Pow2(n)
  {
    if n == 0 {
      forall k | 0 <= k < m
        ensures Bit(x, k) == Bit(0, k)
      {
        BitOfZero(k);
      }
      BitsDetermine(x, 0, m);
    } else {
      forall k | n - 1 <= k < m - 1
        ensures !Bit(x / 2, k)
      {
        assert !Bit(x, k + 1);
      }
      BitsBelow(x / 2, n - 1, m - 1);
    }
  }

  lemma {:induction false} BitDouble(z: nat, k: nat)
    ensures Bit(2 * z, k) == (k > 0 && Bit(z, k - 1))
  {
    if k > 0 {
      assert (2 * z) / 2 == z;
    }
  }

  lemma {:induction false} BitTimesPow2(z: nat, s: nat, k: nat)
    ensures Bit(z * Pow2(s), k) == (s <= k && Bit(z, k - s))
  {
    if s > 0 {
      calc {
        z * Pow2(s);
        2 * (z * Pow2(s - 1));
      }
      BitDouble(z * Pow2(s - 1), k);
      if k > 0 {
        BitTimesPow2(z, s - 1, k - 1);
      }
    }
  }

  lemma {:induction false} BitMod(y: nat, n: nat, k: nat)
    ensures Bit(y % Pow2(n), k) == (k < n && Bit(y, k))
  {
    if n == 0 {
      BitOfZero(k);
    } else {
      var p := Pow2(n - 1);
      HalfMod(y, p);
      if k > 0 {
        BitMod(y / 2, n - 1, k - 1);
      }
    }
  }

  lemma HalfMod(y: nat, p: nat)
    requires p > 0
    ensures (y % (2 * p)) % 2 == y % 2 && (y % (2 * p)) / 2 == (y / 2) % p
  {
    var q, r := y / (2 * p), y % (2 * p);
    assert y == 2 * p * q + r;
    assert y / 2 == p * q + r / 2;
    DivModUnique(y / 2, p, q, r / 2);
  }

  /** Quotient and remainder are determined by the defining equation. */
  lemma DivModUnique(z: int, p: int, q: int, t: int)
    requires p > 0 && 0 <= t < p && z == p * q + t
    ensures z / p == q && z % p == t
  {
    var d := q - z / p;
    assert p * d == z % p - t;
    MulBound(p, d);
  }

  lemma MulBound(p: int, d: int)
    requires p > 0
    ensures d >= 1 ==> p * d >= p
    ensures d <= -1 ==> p * d <= -p
  {
  }

  // ---------------------------------------------------------------------------
  // The arithmetic operators against exact integer arithmetic

  lemma ModMultiple(p: int, x: int, y: int)
    requires p > 0
    ensures (p * x + y) % p == y % p
  {
    assert p * x + y == p * (x + y / p) + y % p;
    DivModUnique(p * x + y, p, x + y / p, y % p);
  }

  /** Wrapping an operand of a product first does not change the wrapped product. */
  lemma WrapMulLeft(a: int, b: int)
    ensures Wrap(Wrap(a) * b) == Wrap(a * b)
  {
    var q, r := a / Modulus, a % Modulus;
    assert a * b == Modulus * (q * b) + r * b by {
      assert a == Modulus * q + r;
    }
    ModMultiple(Modulus, q * b, r * b);
  }

  /** `*` on words is the exact product reduced modulo 2^32. */
  lemma MulWrap(a: int, b: int)
    ensures Mul(Wrap(a), Wrap(b)) == Wrap(a * b)
  {
    WrapMulLeft(a, Wrap(b));
    WrapMulLeft(b, a);
    assert Wrap(b) * a == a * Wrap(b) && b * a == a * b;
  }

  /** `*` of a word and a wrapped value is the exact product reduced modulo 2^32. */
  lemma MulWrapRight(a: Word, b: int)
    ensures Mul(a, Wrap(b)) == Wrap(a * b)
  {
    WrapMulLeft(b, a);
    assert Wrap(b) * a == a * Wrap(b) && b * a == a * b;
  }

  /** Below 2^32 the wrap-around is the identity. */
  lemma WrapSmall(n: int)
    requires 0 <= n < Modulus
    ensures Wrap(n) == n
  {
  }

  /** Dividing by 1 gives the dividend back. */
  lemma SDivOne(a: Word)
    ensures SDiv(a, 1) == a
  {
    assert Signed(1) == 1;
    if a >= SignBit {
      assert Quot(Signed(a), 1) == a - Modulus;
    }
  }

  /** On non-negative signed values, `/` and `%` are the integer quotient and remainder. */
  lemma SDivModSmall(a: Word, b: Word)
    requires a < SignBit && 0 < b < SignBit
    ensures SDiv(a, b) == a / b && SMod(a, b) == a % b
  {
    assert Signed(a) == a && Signed(b) == b;
    assert Abs(a) == a && Abs(b) == b;
    DivBelow(a, b);
    assert Quot(a, b) == a / b;
    assert FloorMod(a, b) == a % b;
  }

  lemma DivBelow(a: nat, b: int)
    requires b > 0
    ensures 0 <= a / b <= a
  {
    var q := a / b;
    assert a == b * q + a % b;
    MulBound(b, q);
    if q >= 1 {
      assert b * q >= q by { MulGrows(b, q); }
    }
  }

  lemma MulGrows(b: int, q: int)
    requires b >= 1 && q >= 0
    ensures b * q >= q
  {
    assert b * q == q + (b - 1) * q;
    MulNonneg(b - 1, q);
  }

  lemma MulNonneg(x: int, y: int)
    requires x >= 0 && y >= 0
    ensures x * y >= 0
  {
  }

  // ---------------------------------------------------------------------------
  // The operators, bit by bit

  lemma WordBitHigh(a: Word, k: nat)
    requires 32 <= k
    ensures !Bit(a, k)
  {
    Pow2Modulus();
    BitHigh(a, 32, k);
  }

  /** Two words with the same 32 bits are equal. */
  lemma WordsEqual(a: Word, b: Word)
    requires forall k :: 0 <= k < 32 ==> Bit(a, k) == Bit(b, k)
    ensures a == b
  {
    Pow2Modulus();
    BitsDetermine(a, b, 32);
  }

  lemma AndBit(a: Word, b: Word, k: nat)
    ensures Bit(And(a, b), k) == (Bit(a, k) && Bit(b, k))
  {
    BitwiseBit(AndOp, a, b, 32, k);
    if k >= 32 { WordBitHigh(a, k); }
  }

  lemma OrBit(a: Word, b: Word, k: nat)
    ensures Bit(Or(a, b), k) == (Bit(a, k) || Bit(b, k))
  {
    BitwiseBit(OrOp, a, b, 32, k);
    if k >= 32 { WordBitHigh(a, k); WordBitHigh(b, k); }
  }

  lemma XorBit(a: Word, b: Word, k: nat)
    ensures Bit(Xor(a, b), k) == (Bit(a, k) != Bit(b, k))
  {
    BitwiseBit(XorOp, a, b, 32, k);
    if k >= 32 { WordBitHigh(a, k); WordBitHigh(b, k); }
  }

  lemma {:induction false} ShiftLeftBit(a: Word, s: nat, k: nat)
    ensures Bit(ShiftLeft(a, s), k) == (s <= k < 32 && Bit(a, k - s))
  {
    Pow2Modulus();
    if s == 0 {
      if k >= 32 { WordBitHigh(a, k); }
    } else {
      var y: int := ShiftLeft(a, s - 1);
      BitMod(2 * y, 32, k);
      BitDouble(y, k);
      if k > 0 {
        ShiftLeftBit(a, s - 1, k - 1);
      }
    }
  }

  lemma ShlBit(a: Word, s: Word, k: nat)
    requires s < 32
    ensures Bit(Shl(a, s), k) == (s <= k < 32 && Bit(a, k - s))
  {
    ShiftLeftBit(a, s, k);
  }

  /** A word with no bit at positions m..31 is below 2^m. */
  lemma BoundByBits(x: Word, m: nat)
    requires m <= 32
    requires forall k :: m <= k < 32 ==> !Bit(x, k)
    ensures x < Pow2(m)
  {
    Pow2Modulus();
    BitsBelow(x, m, 32);
  }

  lemma AndBelow(a: Word, b: Word, m: nat)
    requires m <= 32 && (a < Pow2(m) || b < Pow2(m))
    ensures And(a, b) < Pow2(m)
  {
    forall k | m <= k < 32
      ensures !Bit(And(a, b), k)
    {
      AndBit(a, b, k);
      if a < Pow2(m) { BitHigh(a, m, k); } else { BitHigh(b, m, k); }
    }
    BoundByBits(And(a, b), m);
  }

  lemma OrBelow(a: Word, b: Word, m: nat)
    requires m <= 32 && a < Pow2(m) && b < Pow2(m)
    ensures Or(a, b) < Pow2(m)
  {
    forall k | m <= k < 32
      ensures !Bit(Or(a, b), k)
    {
      OrBit(a, b, k);
      BitHigh(a, m, k);
      BitHigh(b, m, k);
    }
    BoundByBits(Or(a, b), m);
  }

  lemma XorBelow(a: Word, b: Word, m: nat)
    requires m <= 32 && a < Pow2(m) && b < Pow2(m)
    ensures Xor(a, b) < Pow2(m)
  {
    forall k | m <= k < 32
      ensures !Bit(Xor(a, b), k)
    {
      XorBit(a, b, k);
      BitHigh(a, m, k);
      BitHigh(b, m, k);
    }
    BoundByBits(Xor(a, b), m);
  }

  /** Arithmetic shift right by one: halve, and keep the sign bit. */
  lemma AShrOne(a: Word)
    ensures AShr(a, 1) == a / 2 + (if a < SignBit then 0 else SignBit)
  {
    assert Pow2(1) == 2;
    if a >= SignBit {
      assert (a - Modulus) / 2 == a / 2 - SignBit;
    }
  }

  // ---------------------------------------------------------------------------
  // Masks

  lemma {:induction false} BitShiftedAdd(u: nat, w: nat, z: nat, k: nat)
    requires u < Pow2(w)
    ensures Bit(u + Pow2(w) * z, k) == if k < w then Bit(u, k) else Bit(z, k - w)
  {
    if w == 0 {
    } else {
      assert Pow2(w) == 2 * Pow2(w - 1);
      var h := u / 2 + Pow2(w - 1) * z;
      assert u + Pow2(w) * z == 2 * h + u % 2;
      assert (u + Pow2(w) * z) / 2 == h;
      assert (u + Pow2(w) * z) % 2 == u % 2;
      if k > 0 {
        BitShiftedAdd(u / 2, w - 1, z, k - 1);
      }
    }
  }

  /** The bits of a w-bit pattern written twice, side by side. */
  lemma DoubleMaskBit(x: nat, w: nat, y: nat, k: nat)
    requires x < Pow2(w) && y == x + Pow2(w) * x
    ensures Bit(y, k) == (if k < w then Bit(x, k) else k < 2 * w && Bit(x, k - w))
  {
    BitShiftedAdd(x, w, x, k);
    if k >= 2 * w {
      BitHigh(x, w, k - w);
    }
  }

  /** Bits of the small seeds 1 and 3. */
  lemma SmallBits(k: nat)
    ensures Bit(1, k) == (k == 0) && Bit(3, k) == (k < 2)
  {
    if k >= 2 {
      assert Pow2(2) == 4;
      BitHigh(1, 2, k);
      BitHigh(3, 2, k);
    }
  }

  const Evens: Word := 0x5555_5555
  const Odds: Word := 0xAAAA_AAAA
  const Pairs: Word := 0x3333_3333
  const Low16: Word := 0x0000_FFFF

  lemma OneBit(k: nat)
    ensures Bit(1, k) == (k == 0)
  {
    SmallBits(k);
  }

  lemma ThreeBit(k: nat)
    ensures Bit(3, k) == (k < 2)
  {
    SmallBits(k);
  }

  lemma Evens4Bit(k: nat)
    ensures Bit(5, k) == (k < 4 && k % 2 == 0)
  {
    Pow2Modulus();
    DoubleMaskBit(1, 2, 5, k);
    OneBit(if k < 2 then k else k - 2);
  }

  lemma Evens8Bit(k: nat)
    ensures Bit(0x55, k) == (k < 8 && k % 2 == 0)
  {
    Pow2Modulus();
    DoubleMaskBit(5, 4, 0x55, k);
    Evens4Bit(if k < 4 then k else k - 4);
  }

  lemma Evens16Bit(k: nat)
    ensures Bit(0x5555, k) == (k < 16 && k % 2 == 0)
  {
    Pow2Modulus();
    DoubleMaskBit(0x55, 8, 0x5555, k);
    Evens8Bit(if k < 8 then k else k - 8);
  }

  lemma EvensBit(k: nat)
    ensures Bit(Evens, k) == (k < 32 && k % 2 == 0)
  {
    Pow2Modulus();
    DoubleMaskBit(0x5555, 16, Evens, k);
    Evens16Bit(if k < 16 then k else k - 16);
  }

  lemma Pairs8Bit(k: nat)
    ensures Bit(0x33, k) == (k < 8 && k % 4 < 2)
  {
    Pow2Modulus();
    DoubleMaskBit(3, 4, 0x33, k);
    ThreeBit(if k < 4 then k else k - 4);
  }

  lemma Pairs16Bit(k: nat)
    ensures Bit(0x3333, k) == (k < 16 && k % 4 < 2)
  {
    Pow2Modulus();
    DoubleMaskBit(0x33, 8, 0x3333, k);
    Pairs8Bit(if k < 8 then k else k - 8);
  }

  lemma PairsBit(k: nat)
    ensures Bit(Pairs, k) == (k < 32 && k % 4 < 2)
  {
    Pow2Modulus();
    DoubleMaskBit(0x3333, 16, Pairs, k);
    Pairs16Bit(if k < 16 then k else k - 16);
  }

  lemma Ones4Bit(k: nat)
    ensures Bit(0xF, k) == (k < 4)
  {
    Pow2Modulus();
    DoubleMaskBit(3, 2, 0xF, k);
    ThreeBit(if k < 2 then k else k - 2);
  }

  lemma Ones8Bit(k: nat)
    ensures Bit(0xFF, k) == (k < 8)
  {
    Pow2Modulus();
    DoubleMaskBit(0xF, 4, 0xFF, k);
    Ones4Bit(if k < 4 then k else k - 4);
  }

  lemma Low16Bit(k: nat)
    ensures Bit(Low16, k) == (k < 16)
  {
    Pow2Modulus();
    DoubleMaskBit(0xFF, 8, Low16, k);
    Ones8Bit(if k < 8 then k else k - 8);
  }

  /** The bit patterns of the masks used by the layouts. */
  lemma MaskBits(k: nat)
    ensures Bit(Evens, k) == (k < 32 && k % 2 == 0)
    ensures Bit(Odds, k) == (k < 32 && k % 2 == 1)
    ensures Bit(Pairs, k) == (k < 32 && k % 4 < 2)
    ensures Bit(Low16, k) == (k < 16)
  {
    EvensBit(k);
    PairsBit(k);
    Low16Bit(k);
    if k > 0 {
      EvensBit(k - 1);
    }
    assert Odds == 2 * Evens;
    BitDouble(Evens, k);
  }
}
