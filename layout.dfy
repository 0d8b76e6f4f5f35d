/**
 * Layout declarations: a tree of tiles. Each node lays out a dim0 x dim1 grid of
 * elements in one of four orders; an element is either a single cell (the terminal
 * rest 1) or a whole nested layout. Every size and every address is a 32-bit
 * bit-vector value, computed with the operators of module Words.
 */
module Layouts {
  import opened Words
  import opened Interleave
  import opened Hilbert

  datatype Kind = RowMaj | ColMaj | ZMorton | HilbertCurve

  /** A dimension as written in a declaration: a number or a variable. */
  datatype Term = Lit(value: Word) | Name(id: string)

  /** Values of the variables that occur in dimensions and indices. */
  type Env = string -> Word

  function Value(t: Term, env: Env): Word
  {
    match t
    case Lit(v) => v
    case Name(x) => env(x)
  }

  /** The element of a node: the terminal size 1, or a nested declaration. */
  datatype Rest = Unit | Inner(decl: Decl)

  datatype Decl = Decl(kind: Kind, dim0: Term, dim1: Term, rest: Rest)

  predicate IsTerminal(d: Decl)
  {
    d.rest.Unit?
  }

  function Dim0(d: Decl, env: Env): Word
  {
    Value(d.dim0, env)
  }

  function Dim1(d: Decl, env: Env): Word
  {
    Value(d.dim1, env)
  }

  /** The number of cells of the layout. */
  function Size(d: Decl, env: Env): Word
  {
    var v := Mul(Dim0(d, env), Dim1(d, env));
    match d.rest
    case Unit => v
    case Inner(r) => Mul(v, Size(r, env))
  }

  /** The number of cells of one element. */
  function ElemSize(d: Decl, env: Env): Word
  {
    match d.rest
    case Unit => 1
    case Inner(r) => Size(r, env)
  }

  /** The logical extent along dimension 0. */
  function LDim0(d: Decl, env: Env): Word
  {
    match d.rest
    case Unit => Dim0(d, env)
    case Inner(r) => Mul(Dim0(d, env), LDim0(r, env))
  }

  /** The logical extent along dimension 1. */
  function LDim1(d: Decl, env: Env): Word
  {
    match d.rest
    case Unit => Dim1(d, env)
    case Inner(r) => Mul(Dim1(d, env), LDim1(r, env))
  }

  /** The logical extent of one element along dimension 0. */
  function LSize0(d: Decl, env: Env): Word
  {
    match d.rest
    case Unit => 1
    case Inner(r) => LDim0(r, env)
  }

  /** The logical extent of one element along dimension 1. */
  function LSize1(d: Decl, env: Env): Word
  {
    match d.rest
    case Unit => 1
    case Inner(r) => LDim1(r, env)
  }

  /** The position of element (i, j) of a dim0 x dim1 grid, for each order. */
  function Fragment(kind: Kind, dim0: Word, dim1: Word, i: Word, j: Word): Word
  {
    match kind
    case RowMaj => Add(Mul(i, dim1), j)
    case ColMaj => Add(i, Mul(dim0, j))
    case ZMorton => InterleaveBits(i, j)
    case HilbertCurve => HilbertOffset(i, j)
  }

  /** The physical index of logical index (i, j): the tile's position, scaled, plus the offset inside the tile. */
  function Interpret(d: Decl, env: Env, i: Word, j: Word): Word
  {
    var tx := SDiv(i, LSize0(d, env));
    var ty := SDiv(j, LSize1(d, env));
    var p := Fragment(d.kind, Dim0(d, env), Dim1(d, env), tx, ty);
    match d.rest
    case Unit => p
    case Inner(r) =>
      var x := SMod(i, LSize0(d, env));
      var y := SMod(j, LSize1(d, env));
      Add(Mul(p, ElemSize(d, env)), Interpret(r, env, x, y))
  }

  // ---------------------------------------------------------------------------
  // Reference definitions in exact integer arithmetic

  /** The product of dim0 down the chain, without wrap-around. */
  ghost function Extent0(d: Decl, env: Env): nat
  {
    match d.rest
    case Unit => Dim0(d, env)
    case Inner(r) => Dim0(d, env) * Extent0(r, env)
  }

  ghost function Extent1(d: Decl, env: Env): nat
  {
    match d.rest
    case Unit => Dim1(d, env)
    case Inner(r) => Dim1(d, env) * Extent1(r, env)
  }

  /** The product of all dims of the tree, without wrap-around. */
  ghost function Cells(d: Decl, env: Env): nat
  {
    match d.rest
    case Unit => Dim0(d, env) * Dim1(d, env)
    case Inner(r) => Dim0(d, env) * Dim1(d, env) * Cells(r, env)
  }

  // ---------------------------------------------------------------------------
  // Sizes

  /** ldim0 and ldim1 are the products of dim0 and dim1 down the chain, modulo 2^32. */
  lemma {:induction false} LDimExact(d: Decl, env: Env)
    ensures LDim0(d, env) == Wrap(Extent0(d, env))
    ensures LDim1(d, env) == Wrap(Extent1(d, env))
  {
    match d.rest
    case Unit =>
      WrapSmall(Dim0(d, env));
      WrapSmall(Dim1(d, env));
    case Inner(r) =>
      LDimExact(r, env);
      MulWrapRight(Dim0(d, env), Extent0(r, env));
      MulWrapRight(Dim1(d, env), Extent1(r, env));
  }

  /** size is the product of all dims of the tree, modulo 2^32. */
  lemma {:induction false} SizeExact(d: Decl, env: Env)
    ensures Size(d, env) == Wrap(Cells(d, env))
  {
    match d.rest
    case Unit =>
    case Inner(r) =>
      SizeExact(r, env);
      var v := Dim0(d, env) * Dim1(d, env);
      MulWrap(v, Cells(r, env));
  }

  /** The element and the whole: size = dim0 * dim1 * elem_size, ldim = dim * lsize. */
  lemma TileDecomposition(d: Decl, env: Env)
    ensures Size(d, env) == Mul(Mul(Dim0(d, env), Dim1(d, env)), ElemSize(d, env))
    ensures LDim0(d, env) == Mul(Dim0(d, env), LSize0(d, env))
    ensures LDim1(d, env) == Mul(Dim1(d, env), LSize1(d, env))
    ensures IsTerminal(d) ==> ElemSize(d, env) == 1 && LSize0(d, env) == 1 && LSize1(d, env) == 1
  {
  }

  /** The cell count of a tree is the product of its two logical extents. */
  lemma {:induction false} CellsExtents(d: Decl, env: Env)
    ensures Cells(d, env) == Extent0(d, env) * Extent1(d, env)
  {
    match d.rest
    case Unit =>
    case Inner(r) =>
      CellsExtents(r, env);
      var a: int, b: int := Dim0(d, env), Dim1(d, env);
      var c: int, e: int := Extent0(r, env), Extent1(r, env);
      calc {
        Cells(d, env);
        a * b * (c * e);
        { MulSwap(a, b, c, e); }
        (a * c) * (b * e);
      }
  }

  lemma MulSwap(a: int, b: int, c: int, e: int)
    ensures a * b * (c * e) == (a * c) * (b * e)
  {
  }

  /** A two-level layout holds dim0 * dim1 * dim0' * dim1' cells, modulo 2^32. */
  lemma TwoLevelSize(k: Kind, a: Term, b: Term, k': Kind, c: Term, e: Term, env: Env)
    ensures Size(Decl(k, a, b, Inner(Decl(k', c, e, Unit))), env)
         == Wrap(Value(a, env) * Value(b, env) * (Value(c, env) * Value(e, env)))
  {
    SizeExact(Decl(k, a, b, Inner(Decl(k', c, e, Unit))), env);
  }

  // ---------------------------------------------------------------------------
  // Address translation at a terminal node

  /** At a terminal node the divisors are 1, so interpret is the fragment itself. */
  lemma InterpretTerminal(d: Decl, env: Env, i: Word, j: Word)
    requires IsTerminal(d)
    ensures Interpret(d, env, i, j) == Fragment(d.kind, Dim0(d, env), Dim1(d, env), i, j)
  {
    SDivOne(i);
    SDivOne(j);
  }

  lemma MulRowBound(i: int, j: int, d0: int, d1: int)
    requires 0 <= i < d0 && 0 <= j < d1
    ensures 0 <= i * d1 + j < d0 * d1
  {
    assert i * d1 + j < (i + 1) * d1;
    assert (i + 1) * d1 <= d0 * d1 by {
      assert d0 * d1 - (i + 1) * d1 == (d0 - i - 1) * d1;
      MulNonneg(d0 - i - 1, d1);
    }
    MulNonneg(i, d1);
  }

  /** Inside the grid and without overflow, the ROWMAJ and COLMAJ fragments are the exact row-major and column-major positions. */
  lemma AffineFragment(d0: Word, d1: Word, i: Word, j: Word)
    requires i < d0 && j < d1 && d0 * d1 <= Modulus
    ensures Fragment(RowMaj, d0, d1, i, j) == i * d1 + j < d0 * d1
    ensures Fragment(ColMaj, d0, d1, i, j) == i + d0 * j < d0 * d1
  {
    RowMajFragment(d0, d1, i, j);
    ColMajFragment(d0, d1, i, j);
  }

  lemma RowMajFragment(d0: Word, d1: Word, i: Word, j: Word)
    requires i < d0 && j < d1 && d0 * d1 <= Modulus
    ensures Fragment(RowMaj, d0, d1, i, j) == i * d1 + j < d0 * d1
  {
    MulRowBound(i, j, d0, d1);
    MulNonneg(i, d1);
    assert Mul(i, d1) == i * d1;
  }

  lemma ColMajFragment(d0: Word, d1: Word, i: Word, j: Word)
    requires i < d0 && j < d1 && d0 * d1 <= Modulus
    ensures Fragment(ColMaj, d0, d1, i, j) == i + d0 * j < d0 * d1
  {
    MulRowBound(j, i, d1, d0);
    assert d0 * j == j * d0 && d1 * d0 == d0 * d1;
    MulNonneg(d0, j);
    assert Mul(d0, j) == d0 * j;
  }

  /** A single-level ROWMAJ(d0, d1, 1) places (i, j) at i * d1 + j. */
  lemma RowMajSingle(d0: Term, d1: Term, env: Env, i: Word, j: Word)
    requires i < Value(d0, env) && j < Value(d1, env)
    requires Value(d0, env) * Value(d1, env) <= Modulus
    ensures Interpret(Decl(RowMaj, d0, d1, Unit), env, i, j) == i * Value(d1, env) + j
  {
    InterpretTerminal(Decl(RowMaj, d0, d1, Unit), env, i, j);
    AffineFragment(Value(d0, env), Value(d1, env), i, j);
  }

  /** A single-level COLMAJ(d0, d1, 1) places (i, j) at i + d0 * j. */
  lemma ColMajSingle(d0: Term, d1: Term, env: Env, i: Word, j: Word)
    requires i < Value(d0, env) && j < Value(d1, env)
    requires Value(d0, env) * Value(d1, env) <= Modulus
    ensures Interpret(Decl(ColMaj, d0, d1, Unit), env, i, j) == i + Value(d0, env) * j
  {
    InterpretTerminal(Decl(ColMaj, d0, d1, Unit), env, i, j);
    AffineFragment(Value(d0, env), Value(d1, env), i, j);
  }

  /** A single-level ZMORTON(d0, d1, 1) interleaves the index bits; on [0, 16)^2 this is the Morton code. */
  lemma ZMortonSingle(d0: Term, d1: Term, env: Env, i: Word, j: Word)
    requires i < 16 && j < 16
    ensures Interpret(Decl(ZMorton, d0, d1, Unit), env, i, j) == Morton(i, j, 4)
  {
    InterpretTerminal(Decl(ZMorton, d0, d1, Unit), env, i, j);
    InterleaveMorton(i, j);
  }
}
