/**
 * Address translation of trees built only from ROWMAJ and COLMAJ nodes. When the
 * cell count stays below 2^31, so that no operator wraps around and signed division
 * is integer division, the translation is a bijection between the logical index
 * rectangle [0, ldim0) x [0, ldim1) and the physical range [0, size).
 */
module Tiling {
  import opened Words
  import opened Layouts

  /** Every node of the tree is ROWMAJ or COLMAJ. */
  predicate Affine(d: Decl)
  {
    (d.kind == RowMaj || d.kind == ColMaj) && (d.rest.Inner? ==> Affine(d.rest.decl))
  }

  /** Every dimension of the tree is positive. */
  predicate Positive(d: Decl, env: Env)
  {
    Dim0(d, env) > 0 && Dim1(d, env) > 0 && (d.rest.Inner? ==> Positive(d.rest.decl, env))
  }

  /** The exact position of tile (ti, tj) in a d0 x d1 grid. */
  function TileIndex(kind: Kind, d0: int, d1: int, ti: int, tj: int): int
  {
    if kind == RowMaj then ti * d1 + tj else ti + d0 * tj
  }

  /** The tile at position t of a d0 x d1 grid: the inverse of TileIndex. */
  function TileOf(kind: Kind, d0: int, d1: int, t: int): (int, int)
    requires d0 > 0 && d1 > 0
  {
    if kind == RowMaj then (t / d1, t % d1) else (t % d0, t / d0)
  }

  lemma {:induction false} CellsPositive(d: Decl, env: Env)
    requires Positive(d, env)
    ensures Cells(d, env) > 0
  {
    var a: int, b: int := Dim0(d, env), Dim1(d, env);
    MulGrows(a, b);
    match d.rest
    case Unit =>
    case Inner(r) =>
      CellsPositive(r, env);
      MulGrows(a * b, Cells(r, env));
  }

  /** The logical index that the physical index p holds. */
  ghost function Locate(d: Decl, env: Env, p: int): (int, int)
    requires Positive(d, env)
  {
    match d.rest
    case Unit => TileOf(d.kind, Dim0(d, env), Dim1(d, env), p)
    case Inner(r) =>
      CellsPositive(r, env);
      var c := Cells(r, env);
      var t := TileOf(d.kind, Dim0(d, env), Dim1(d, env), p / c);
      var xy := Locate(r, env, p % c);
      (t.0 * Extent0(r, env) + xy.0, t.1 * Extent1(r, env) + xy.1)
  }

  // ---------------------------------------------------------------------------
  // One grid

  lemma MulMonotone(c: int, n: int, q: int)
    requires c > 0 && q >= n
    ensures c * q >= n * c
  {
    assert c * q - n * c == c * (q - n);
    MulNonneg(c, q - n);
  }

  lemma DivLess(t: int, c: int, n: int)
    requires c > 0 && 0 <= t < n * c
    ensures 0 <= t / c < n
  {
    var q := t / c;
    assert t == c * q + t % c;
    if q < 0 {
      MulBound(c, q);
    } else if q >= n {
      MulMonotone(c, n, q);
    }
  }

  lemma DivModEq(i: int, a: int)
    requires a > 0
    ensures i == (i / a) * a + i % a
  {
  }

  /** The two digits of t * c + q in base c. */
  lemma Digits(t: int, q: int, c: int, n: int)
    requires 0 <= t < n && 0 <= q < c
    ensures 0 <= t * c + q < n * c
    ensures (t * c + q) / c == t && (t * c + q) % c == q
  {
    MulRowBound(t, q, n, c);
    DivModUnique(t * c + q, c, t, q);
  }

  /** TileOf undoes TileIndex inside the grid. */
  lemma TileRoundTrip(kind: Kind, d0: int, d1: int, ti: int, tj: int)
    requires kind == RowMaj || kind == ColMaj
    requires 0 <= ti < d0 && 0 <= tj < d1
    ensures TileOf(kind, d0, d1, TileIndex(kind, d0, d1, ti, tj)) == (ti, tj)
  {
    if kind == RowMaj {
      DivModUnique(ti * d1 + tj, d1, ti, tj);
    } else {
      DivModUnique(ti + d0 * tj, d0, tj, ti);
    }
  }

  /** Every position t of the grid is the TileIndex of the tile TileOf gives, and that tile lies in the grid. */
  lemma TileCover(kind: Kind, d0: int, d1: int, t: int)
    requires kind == RowMaj || kind == ColMaj
    requires d0 > 0 && d1 > 0 && 0 <= t < d0 * d1
    ensures 0 <= TileOf(kind, d0, d1, t).0 < d0 && 0 <= TileOf(kind, d0, d1, t).1 < d1
    ensures TileIndex(kind, d0, d1, TileOf(kind, d0, d1, t).0, TileOf(kind, d0, d1, t).1) == t
  {
    if kind == RowMaj {
      DivLess(t, d1, d0);
      assert t == d1 * (t / d1) + t % d1;
    } else {
      assert d0 * d1 == d1 * d0;
      DivLess(t, d0, d1);
      assert t == d0 * (t / d0) + t % d0;
    }
  }

  // ---------------------------------------------------------------------------
  // Extents

  lemma ProductPositive(a: int, b: int)
    requires a >= 0 && b >= 0 && a * b > 0
    ensures a > 0 && b > 0
  {
  }

  /** Non-empty extents mean every dimension is positive. */
  lemma {:induction false} ExtentsPositive(d: Decl, env: Env)
    requires Extent0(d, env) > 0 && Extent1(d, env) > 0
    ensures Positive(d, env)
  {
    match d.rest
    case Unit =>
    case Inner(r) =>
      ProductPositive(Dim0(d, env), Extent0(r, env));
      ProductPositive(Dim1(d, env), Extent1(r, env));
      ExtentsPositive(r, env);
  }

  /** With positive dimensions both extents are at most the cell count. */
  lemma ExtentsBelowCells(d: Decl, env: Env)
    requires Positive(d, env)
    ensures 0 < Extent0(d, env) <= Cells(d, env) && 0 < Extent1(d, env) <= Cells(d, env)
  {
    CellsPositive(d, env);
    CellsExtents(d, env);
    var a: int, b: int := Extent0(d, env), Extent1(d, env);
    ProductPositive(a, b);
    MulGrows(a, b);
    MulGrows(b, a);
    assert b * a == a * b;
  }

  /** The facts about a nested node that the address translation relies on. */
  lemma NestedFacts(d: Decl, env: Env)
    requires d.rest.Inner? && Positive(d, env) && Cells(d, env) < SignBit
    ensures var r := d.rest.decl;
      Cells(d, env) == Dim0(d, env) * Dim1(d, env) * Cells(r, env)
      && 0 < Dim0(d, env) * Dim1(d, env) <= Cells(d, env)
      && Cells(r, env) <= Cells(d, env)
      && LSize0(d, env) == Extent0(r, env) && LSize1(d, env) == Extent1(r, env)
      && ElemSize(d, env) == Cells(r, env)
      && Extent0(d, env) == Dim0(d, env) * Extent0(r, env)
      && Extent1(d, env) == Dim1(d, env) * Extent1(r, env)
      && Extent0(d, env) < SignBit && Extent1(d, env) < SignBit
      && 0 < Extent0(r, env) <= Cells(r, env) && 0 < Extent1(r, env) <= Cells(r, env)
  {
    NestedCells(d, env);
    NestedExtents(d, env);
    NestedSizes(d.rest.decl, env);
  }

  lemma NestedCells(d: Decl, env: Env)
    requires d.rest.Inner? && Positive(d, env)
    ensures Cells(d, env) == Dim0(d, env) * Dim1(d, env) * Cells(d.rest.decl, env)
    ensures 0 < Dim0(d, env) * Dim1(d, env) <= Cells(d, env)
    ensures Cells(d.rest.decl, env) <= Cells(d, env)
  {
    var a: int, b: int, c: int := Dim0(d, env), Dim1(d, env), Cells(d.rest.decl, env);
    assert Cells(d, env) == a * b * c;
    CellsPositive(d.rest.decl, env);
    ProductBounds(a, b, c);
  }

  lemma ProductBounds(a: int, b: int, c: int)
    requires a > 0 && b > 0 && c > 0
    ensures 0 < a * b <= a * b * c && c <= a * b * c
  {
    MulGrows(a, b);
    MulGrows(a * b, c);
    MulGrows(c, a * b);
    assert c * (a * b) == a * b * c;
  }

  lemma NestedExtents(d: Decl, env: Env)
    requires d.rest.Inner? && Positive(d, env) && Cells(d, env) < SignBit
    ensures Extent0(d, env) == Dim0(d, env) * Extent0(d.rest.decl, env)
    ensures Extent1(d, env) == Dim1(d, env) * Extent1(d.rest.decl, env)
    ensures Extent0(d, env) < SignBit && Extent1(d, env) < SignBit
    ensures 0 < Extent0(d.rest.decl, env) <= Cells(d.rest.decl, env)
    ensures 0 < Extent1(d.rest.decl, env) <= Cells(d.rest.decl, env)
  {
    ExtentsBelowCells(d.rest.decl, env);
    ExtentsBelowCells(d, env);
  }

  /** Below 2^31 cells the wrapped sizes of a tree are its exact extents and cell count. */
  lemma NestedSizes(r: Decl, env: Env)
    requires Extent0(r, env) <= Cells(r, env) && Extent1(r, env) <= Cells(r, env) && Cells(r, env) < SignBit
    ensures LDim0(r, env) == Extent0(r, env) && LDim1(r, env) == Extent1(r, env)
    ensures Size(r, env) == Cells(r, env)
  {
    LDimExact(r, env);
    SizeExact(r, env);
    WrapSmall(Extent0(r, env));
    WrapSmall(Extent1(r, env));
    WrapSmall(Cells(r, env));
  }

  /** At a nested node, inside the rectangle, the tile position is the exact TileIndex and the scaling and the sum do not wrap. */
  lemma NestedStep(d: Decl, env: Env, i: Word, j: Word)
    requires d.rest.Inner? && Affine(d) && Positive(d, env) && Cells(d, env) < SignBit
    requires i < Extent0(d, env) && j < Extent1(d, env)
    requires Interpret(d.rest.decl, env, SMod(i, LSize0(d, env)), SMod(j, LSize1(d, env))) < Cells(d.rest.decl, env)
    ensures var r := d.rest.decl;
      var a, b := Extent0(r, env), Extent1(r, env);
      a > 0 && b > 0
      && SDiv(i, LSize0(d, env)) == i / a && SMod(i, LSize0(d, env)) == i % a
      && SDiv(j, LSize1(d, env)) == j / b && SMod(j, LSize1(d, env)) == j % b
      && i / a < Dim0(d, env) && j / b < Dim1(d, env)
      && Interpret(d, env, i, j)
         == TileIndex(d.kind, Dim0(d, env), Dim1(d, env), i / a, j / b) * Cells(r, env) + Interpret(r, env, i % a, j % b)
  {
    var r := d.rest.decl;
    var d0, d1 := Dim0(d, env), Dim1(d, env);
    NestedFacts(d, env);
    var a, b, c := Extent0(r, env), Extent1(r, env), Cells(r, env);
    SDivModSmall(i, a);
    SDivModSmall(j, b);
    var tx, ty := i / a, j / b;
    DivLess(i, a, d0);
    DivLess(j, b, d1);
    var t := TileIndex(d.kind, d0, d1, tx, ty);
    var q := Interpret(r, env, i % a, j % b);
    AffineFragment(d0, d1, tx, ty);
    Digits(t, q, c, d0 * d1);
    MulNonneg(t, c);
    InterpretStep(d, env, i, j, t, q, c);
  }

  /** Unfolds one level of Interpret at a nested node whose tile position is t, whose element holds c cells and whose element offset is q. */
  lemma InterpretStep(d: Decl, env: Env, i: Word, j: Word, t: Word, q: Word, c: Word)
    requires d.rest.Inner? && ElemSize(d, env) == c
    requires Fragment(d.kind, Dim0(d, env), Dim1(d, env), SDiv(i, LSize0(d, env)), SDiv(j, LSize1(d, env))) == t
    requires Interpret(d.rest.decl, env, SMod(i, LSize0(d, env)), SMod(j, LSize1(d, env))) == q
    requires t * c + q < Modulus
    ensures Interpret(d, env, i, j) == t * c + q
  {
    assert Interpret(d, env, i, j) == Add(Mul(t, c), q);
    MulNonneg(t, c);
    WrapSmall(t * c);
    WrapSmall(t * c + q);
  }

  // ---------------------------------------------------------------------------
  // The bijection

  /**
   * Every logical index inside the rectangle lands inside [0, size), and Locate
   * recovers it from the physical index.
   */
  lemma {:induction false} InterpretInRange(d: Decl, env: Env, i: Word, j: Word)
    requires Affine(d) && Cells(d, env) < SignBit
    requires i < Extent0(d, env) && j < Extent1(d, env)
    ensures Positive(d, env)
    ensures Interpret(d, env, i, j) < Cells(d, env)
    ensures Locate(d, env, Interpret(d, env, i, j)) == (i as int, j as int)
  {
    ExtentsPositive(d, env);
    var d0, d1 := Dim0(d, env), Dim1(d, env);
    match d.rest
    case Unit =>
      InterpretTerminal(d, env, i, j);
      AffineFragment(d0, d1, i, j);
      TileRoundTrip(d.kind, d0, d1, i, j);
    case Inner(r) =>
      NestedFacts(d, env);
      var a, b := Extent0(r, env), Extent1(r, env);
      SDivModSmall(i, a);
      SDivModSmall(j, b);
      InterpretInRange(r, env, i % a, j % b);
      NestedInRange(d, env, i, j);
  }

  /** The nested case of InterpretInRange, given its conclusion for the element. */
  lemma NestedInRange(d: Decl, env: Env, i: Word, j: Word)
    requires d.rest.Inner? && Affine(d) && Positive(d, env) && Cells(d, env) < SignBit
    requires i < Extent0(d, env) && j < Extent1(d, env)
    requires var r := d.rest.decl;
      var x, y := SMod(i, LSize0(d, env)), SMod(j, LSize1(d, env));
      Positive(r, env) && Interpret(r, env, x, y) < Cells(r, env)
      && Locate(r, env, Interpret(r, env, x, y)) == (x as int, y as int)
    ensures Interpret(d, env, i, j) < Cells(d, env)
    ensures Locate(d, env, Interpret(d, env, i, j)) == (i as int, j as int)
  {
    var r := d.rest.decl;
    var d0, d1 := Dim0(d, env), Dim1(d, env);
    NestedFacts(d, env);
    NestedStep(d, env, i, j);
    var a, b, c := Extent0(r, env), Extent1(r, env), Cells(r, env);
    var tx, ty := i / a, j / b;
    var t := TileIndex(d.kind, d0, d1, tx, ty);
    var q := Interpret(r, env, i % a, j % b);
    AffineFragment(d0, d1, tx, ty);
    Digits(t, q, c, d0 * d1);
    TileRoundTrip(d.kind, d0, d1, tx, ty);
    LocateNested(d, env, t, q);
    DivModEq(i, a);
    DivModEq(j, b);
  }

  /** Locate at a nested node reads the tile of the quotient by the element size and locates the remainder inside it. */
  lemma LocateNested(d: Decl, env: Env, t: int, q: int)
    requires d.rest.Inner? && Positive(d, env) && 0 <= q < Cells(d.rest.decl, env)
    ensures var r := d.rest.decl;
      var tile := TileOf(d.kind, Dim0(d, env), Dim1(d, env), t);
      Locate(d, env, t * Cells(r, env) + q)
      == (tile.0 * Extent0(r, env) + Locate(r, env, q).0, tile.1 * Extent1(r, env) + Locate(r, env, q).1)
  {
    var r := d.rest.decl;
    CellsPositive(r, env);
    DivModUnique(t * Cells(r, env) + q, Cells(r, env), t, q);
  }

  /** Every physical index in [0, size) is the image of the logical index Locate gives, which lies inside the rectangle. */
  lemma {:induction false} LocateInRange(d: Decl, env: Env, p: int)
    requires Affine(d) && Positive(d, env) && Cells(d, env) < SignBit && 0 <= p < Cells(d, env)
    ensures Extent0(d, env) <= Cells(d, env) && Extent1(d, env) <= Cells(d, env)
    ensures 0 <= Locate(d, env, p).0 < Extent0(d, env) && 0 <= Locate(d, env, p).1 < Extent1(d, env)
    ensures Interpret(d, env, Locate(d, env, p).0, Locate(d, env, p).1) == p
  {
    ExtentsBelowCells(d, env);
    var d0, d1 := Dim0(d, env), Dim1(d, env);
    match d.rest
    case Unit =>
      var (ti, tj) := TileOf(d.kind, d0, d1, p);
      TileCover(d.kind, d0, d1, p);
      InterpretTerminal(d, env, ti, tj);
      AffineFragment(d0, d1, ti, tj);
    case Inner(r) =>
      NestedFacts(d, env);
      var a, b, c := Extent0(r, env), Extent1(r, env), Cells(r, env);
      var t, q := p / c, p % c;
      DivLess(p, c, d0 * d1);
      var (ti, tj) := TileOf(d.kind, d0, d1, t);
      TileCover(d.kind, d0, d1, t);
      LocateInRange(r, env, q);
      var (x, y) := Locate(r, env, q);
      var i, j := ti * a + x, tj * b + y;
      MulRowBound(ti, x, d0, a);
      MulRowBound(tj, y, d1, b);
      assert Locate(d, env, p) == (i, j);
      DivModUnique(i, a, ti, x);
      DivModUnique(j, b, tj, y);
      SDivModSmall(i, a);
      SDivModSmall(j, b);
      NestedStep(d, env, i, j);
      DivModEq(p, c);
  }

  /** Distinct logical indices inside the rectangle never share a physical index. */
  lemma InterpretInjective(d: Decl, env: Env, i: Word, j: Word, i': Word, j': Word)
    requires Affine(d) && Cells(d, env) < SignBit
    requires i < Extent0(d, env) && j < Extent1(d, env)
    requires i' < Extent0(d, env) && j' < Extent1(d, env)
    requires Interpret(d, env, i, j) == Interpret(d, env, i', j')
    ensures i == i' && j == j'
  {
    InterpretInRange(d, env, i, j);
    InterpretInRange(d, env, i', j');
  }
}
