/**
 * Worked declarations: concrete texts read by the factory, and the addresses
 * their layouts give.
 */
module Scenarios {
  import opened Words
  import opened Interleave
  import opened Layouts
  import opened Declarations

  /** The usage example Z(4,4,1): an abbreviated 4 x 4 Z-Morton layout, which sends (3, 7) to 31. */
  lemma ZExample(env: Env)
    ensures Factory("Z(4,4,1)") == Ok(Decl(ZMorton, Lit(4), Lit(4), Unit))
    ensures Interpret(Decl(ZMorton, Lit(4), Lit(4), Unit), env, 3, 7) == 31
  {
    var d := Decl(ZMorton, Lit(4), Lit(4), Unit);
    assert TermText(Lit(4)) == "4";
    assert Render("Z", d) == "Z(4,4,1)";
    ResolveKindName(ZMorton, 1);
    assert KindName(ZMorton)[..1] == "Z";
    ReadRendered("Z", d, "Z(4,4,1)", Ok(d));
    calc {
      Interpret(d, env, 3, 7);
      { InterpretTerminal(d, env, 3, 7); }
      Fragment(ZMorton, 4, 4, 3, 7);
      InterleaveBits(3, 7);
      { InterleaveExample(); }
      31;
    }
  }

  /** Blanks after the commas are skipped: ROWMAJ(8, 4, 1) is an 8 x 4 row-major layout. */
  lemma RowMajExample(env: Env, i: Word, j: Word)
    requires i < 8 && j < 4
    ensures Factory("ROWMAJ(8, 4, 1)") == Ok(Decl(RowMaj, Lit(8), Lit(4), Unit))
    ensures Interpret(Decl(RowMaj, Lit(8), Lit(4), Unit), env, i, j) == 4 * i + j
  {
    var p := Parts("ROWMAJ", "8", " ", "4", " ", "1");
    assert Head(p) == "ROWMAJ(8, 4, 1)";
    assert TermText(Lit(8)) == "8" && TermText(Lit(4)) == "4";
    TermRoundTrip(Lit(8));
    TermRoundTrip(Lit(4));
    FactoryUnsupported(p, RowMaj, Lit(8), Lit(4));
    RowMajSingle(Lit(8), Lit(4), env, i, j);
  }

  /** A word that abbreviates no kind is an unknown layout. */
  lemma UnknownExample()
    ensures Factory("BOGUS(4,4,1)") == Fail(UnknownLayout("BOGUS"))
  {
    var d := Decl(RowMaj, Lit(4), Lit(4), Unit);
    assert TermText(Lit(4)) == "4";
    assert Render("BOGUS", d) == "BOGUS(4,4,1)";
    forall k: Kind ensures !("BOGUS" <= KindName(k)) {
      assert KindName(k)[0] != 'B';
    }
    ResolveKindUnknown("BOGUS");
    ReadRendered("BOGUS", d, "BOGUS(4,4,1)", Fail(UnknownLayout("BOGUS")));
  }

  /** An innermost element other than 1 is unsupported. */
  lemma TerminalExample()
    ensures Factory("ROWMAJ(4,4,2)") == Fail(UnsupportedTerminal("2"))
  {
    var p := Parts("ROWMAJ", "4", "", "4", "", "2");
    assert Head(p) == "ROWMAJ(4,4,2)";
    assert TermText(Lit(4)) == "4";
    TermRoundTrip(Lit(4));
    assert Split("2") == None by { assert Scan("2", 0, WordChar) == 1; }
    FactoryUnsupported(p, RowMaj, Lit(4), Lit(4));
  }

  /** The terminal rule applies to the innermost node: R(4,4,C(2,2,2)) reports the element 2. */
  lemma NestedTerminalExample()
    ensures Factory("R(4,4,C(2,2,2))") == Fail(UnsupportedTerminal("2"))
  {
    var outer := Parts("R", "4", "", "4", "", "C(2,2,2)");
    assert Head(outer) == "R(4,4,C(2,2,2))";
    OuterTerminal(outer);
  }

  /** The outer node of NestedTerminalExample passes on what its element reports. */
  lemma OuterTerminal(outer: Parts)
    requires outer == Parts("R", "4", "", "4", "", "C(2,2,2)")
    ensures Factory(Head(outer)) == Fail(UnsupportedTerminal("2"))
  {
    InnerTerminal();
    OuterGroups(outer);
    FactoryInner(outer, RowMaj, Lit(4), Lit(4), "2");
  }

  /** The groups of the outer node fit the pattern, and its word and dimensions read as R, 4 and 4. */
  lemma OuterGroups(outer: Parts)
    requires outer == Parts("R", "4", "", "4", "", "C(2,2,2)")
    ensures Fits(outer) && outer.dim1[0] != ' ' && outer.rest[0] != ' '
    ensures ResolveKind(outer.word) == Ok(RowMaj) && ParseTerm(outer.dim0) == Ok(Lit(4)) && ParseTerm(outer.dim1) == Ok(Lit(4))
  {
    assert TermText(Lit(4)) == "4";
    TermRoundTrip(Lit(4));
    ResolveKindName(RowMaj, 1);
    assert KindName(RowMaj)[..1] == "R";
  }

  /** The inner node C(2,2,2) of NestedTerminalExample matches, and its element 2 is unsupported. */
  lemma InnerTerminal()
    ensures Split("C(2,2,2)").Some? && Factory("C(2,2,2)") == Fail(UnsupportedTerminal("2"))
  {
    var inner := Parts("C", "2", "", "2", "", "2");
    assert Head(inner) == "C(2,2,2)";
    assert TermText(Lit(2)) == "2";
    TermRoundTrip(Lit(2));
    ResolveKindName(ColMaj, 1);
    assert KindName(ColMaj)[..1] == "C";
    assert Split("2") == None by { assert Scan("2", 0, WordChar) == 1; }
    FactoryUnsupported(inner, ColMaj, Lit(2), Lit(2));
    HeadSplit(inner);
  }

  /** A two-level declaration: an n x n Hilbert grid of 2 x 2 column-major tiles. */
  lemma NestedExample()
    ensures Factory("HILBERT(n,n,COLMAJ(2,2,1))") == Ok(NestedDecl())
  {
    NestedText();
    NestedWellNamed();
    PrintRoundTrip(NestedDecl());
  }

  function NestedDecl(): Decl
  {
    Decl(HilbertCurve, Name("n"), Name("n"), Inner(Decl(ColMaj, Lit(2), Lit(2), Unit)))
  }

  lemma NestedWellNamed()
    ensures WellNamedDecl(NestedDecl())
  {
    assert "n" !in Keywords;
  }

  lemma NestedText()
    ensures Print(NestedDecl()) == "HILBERT(n,n,COLMAJ(2,2,1))"
  {
    var e := Decl(ColMaj, Lit(2), Lit(2), Unit);
    assert TermText(Lit(2)) == "2" && TermText(Name("n")) == "n";
    assert Render("COLMAJ", e) == "COLMAJ(2,2,1)";
  }
}
