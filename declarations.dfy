/**
 * Reading a layout declaration such as "ZMORTON(4, n, ROWMAJ(2, 2, 1))".
 *
 * The text is matched against the declaration pattern
 *     word "(" dim0 "," spaces dim1 "," spaces rest ")"
 * where word is a run of ASCII word characters, dim0 and dim1 contain no comma and
 * rest contains no line break. Split reads the match a backtracking matcher finds at
 * the start of a string, Search the leftmost match, Factory the whole declaration tree.
 */
module Declarations {
  import opened Words
  import opened Layouts

  datatype Option<T> = None | Some(value: T)

  /** Why a text is not a declaration. */
  datatype Error =
    | NoMatch
    | UnknownLayout(word: string)
    | BadTerm(text: string)
    | UnsupportedTerminal(rest: string)

  datatype Result<T> = Ok(value: T) | Fail(error: Error)

  // ---------------------------------------------------------------------------
  // Characters

  /** The character classes the pattern uses. */
  datatype Class = WordChar | NotComma | Space | NotNewline

  predicate IsLetter(c: char)
  {
    'a' <= c <= 'z' || 'A' <= c <= 'Z'
  }

  predicate IsDigit(c: char)
  {
    '0' <= c <= '9'
  }

  predicate In(c: char, cl: Class)
  {
    match cl
    case WordChar => IsLetter(c) || IsDigit(c) || c == '_'
    case NotComma => c != ','
    case Space => c == ' '
    case NotNewline => c != '\n'
  }

  predicate All(s: string, cl: Class)
  {
    forall k :: 0 <= k < |s| ==> In(s[k], cl)
  }

  /** The end of the longest run of cl characters that starts at position i of s. */
  function Scan(s: string, i: nat, cl: Class): (e: nat)
    requires i <= |s|
    ensures i <= e <= |s|
    decreases |s| - i
  {
    if i == |s| || !In(s[i], cl) then i else Scan(s, i + 1, cl)
  }

  /** Scan stops at the first character from i that is not in cl. */
  lemma {:induction false} ScanRun(s: string, i: nat, cl: Class)
    requires i <= |s|
    ensures forall k :: i <= k < Scan(s, i, cl) ==> In(s[k], cl)
    ensures Scan(s, i, cl) < |s| ==> !In(s[Scan(s, i, cl)], cl)
    decreases |s| - i
  {
    if i < |s| && In(s[i], cl) {
      ScanRun(s, i + 1, cl);
    }
  }

  /** The run is unique: any run of cl characters from i that cannot be extended ends where Scan says. */
  lemma {:induction false} ScanUnique(s: string, i: nat, cl: Class, e: nat)
    requires i <= e <= |s| && (forall k :: i <= k < e ==> In(s[k], cl))
    requires e < |s| ==> !In(s[e], cl)
    ensures Scan(s, i, cl) == e
    decreases e - i
  {
    if i < e {
      ScanUnique(s, i + 1, cl, e);
    }
  }

  /** The last position of c in s[i..j]. */
  function LastIn(s: string, i: nat, j: nat, c: char): (r: Option<nat>)
    requires i <= j <= |s|
    ensures r.Some? ==> i <= r.value < j
    decreases j - i
  {
    if i == j then None
    else if s[j - 1] == c then Some(j - 1)
    else LastIn(s, i, j - 1, c)
  }

  /** LastIn finds a c with no c after it, and finds nothing only when there is no c. */
  lemma {:induction false} LastInFacts(s: string, i: nat, j: nat, c: char)
    requires i <= j <= |s|
    ensures var r := LastIn(s, i, j, c);
      (r.Some? ==> s[r.value] == c && forall k :: r.value < k < j ==> s[k] != c)
      && (r.None? ==> forall k :: i <= k < j ==> s[k] != c)
    decreases j - i
  {
    if i < j && s[j - 1] != c {
      LastInFacts(s, i, j - 1, c);
    }
  }

  /** The last occurrence is unique. */
  lemma {:induction false} LastInUnique(s: string, i: nat, j: nat, c: char, k: nat)
    requires i <= k < j <= |s| && s[k] == c && forall m :: k < m < j ==> s[m] != c
    ensures LastIn(s, i, j, c) == Some(k)
    decreases j - i
  {
    if k < j - 1 {
      LastInUnique(s, i, j - 1, c, k);
    }
  }

  /** A slice whose characters are all in cl. */
  lemma SliceAll(s: string, i: nat, j: nat, cl: Class)
    requires i <= j <= |s| && forall k :: i <= k < j ==> In(s[k], cl)
    ensures All(s[i..j], cl)
  {
    assert forall k :: 0 <= k < j - i ==> s[i..j][k] == s[i + k];
  }

  // ---------------------------------------------------------------------------
  // The declaration pattern

  /** The groups of one match, and the two runs of blanks the pattern skips. */
  datatype Parts = Parts(word: string, dim0: string, pad1: string, dim1: string, pad2: string, rest: string)

  /** The text a match covers. */
  function Head(p: Parts): string
  {
    p.word + "(" + p.dim0 + "," + p.pad1 + p.dim1 + "," + p.pad2 + p.rest + ")"
  }

  /** The groups satisfy the pattern's character classes. */
  predicate Fits(p: Parts)
  {
    |p.word| > 0 && All(p.word, WordChar)
    && |p.dim0| > 0 && All(p.dim0, NotComma)
    && All(p.pad1, Space)
    && |p.dim1| > 0 && All(p.dim1, NotComma)
    && All(p.pad2, Space)
    && All(p.rest, NotNewline)
  }

  /** No ')' from position i to the end of its line. */
  predicate NoCloseInLine(s: string, i: nat)
    requires i <= |s|
  {
    forall k :: i <= k < Scan(s, i, NotNewline) ==> s[k] != ')'
  }

  /**
   * The match the matcher picks among those that fit: dim1 keeps a blank only
   * when it would otherwise be empty, rest starts after all blanks and ends at
   * the last ')' of the line.
   */
  predicate Greedy(s: string, p: Parts)
    requires Head(p) <= s
  {
    (|p.dim1| > 0 && p.dim1[0] == ' ' ==> p.dim1 == " ")
    && (|p.rest| > 0 ==> p.rest[0] != ' ')
    && NoCloseInLine(s, |Head(p)|)
  }

  /** s starts with the match p. */
  predicate Shaped(s: string, p: Parts)
  {
    Fits(p) && Head(p) <= s && Greedy(s, p)
  }

  /**
   * Where the pieces of a match lie: word is s[..w] and '(' is at w, the commas are
   * at e0 and e1, dim1 starts at p1, rest at p2, and the closing ')' is at k.
   */
  datatype Cuts = Cuts(w: nat, e0: nat, p1: nat, e1: nat, p2: nat, k: nat)

  predicate Ordered(s: string, c: Cuts)
  {
    0 < c.w && c.w + 1 < c.e0 < c.p1 < c.e1 < c.p2 <= c.k < |s|
  }

  function PartsAt(s: string, c: Cuts): Parts
    requires Ordered(s, c)
  {
    Parts(s[..c.w], s[c.w + 1..c.e0], s[c.e0 + 1..c.p1], s[c.p1..c.e1], s[c.e1 + 1..c.p2], s[c.p2..c.k])
  }

  /** The positions of the match a backtracking matcher finds at the start of s. */
  function Find(s: string): (r: Option<Cuts>)
    ensures r.Some? ==> Ordered(s, r.value)
  {
    var w := Scan(s, 0, WordChar);
    if w == 0 || w == |s| || s[w] != '(' then None else
    var e0 := Scan(s, w + 1, NotComma);
    if e0 == w + 1 || e0 == |s| then None else
    var e1 := Scan(s, e0 + 1, NotComma);
    if e1 == e0 + 1 || e1 == |s| then None else
    var b := Scan(s, e0 + 1, Space);
    var p2 := Scan(s, e1 + 1, Space);
    match LastIn(s, p2, Scan(s, p2, NotNewline), ')')
    case None => None
    case Some(k) => Some(Cuts(w, e0, if b < e1 then b else e1 - 1, e1, p2, k))
  }

  /** The match of the declaration pattern at the start of s, if there is one. */
  function Split(s: string): (r: Option<Parts>)
    ensures r.Some? ==> |r.value.rest| < |s|
  {
    match Find(s)
    case None => None
    case Some(c) => Some(PartsAt(s, c))
  }

  /** The equations Find's positions satisfy. */
  predicate Located(s: string, c: Cuts)
  {
    Ordered(s, c)
    && c.w == Scan(s, 0, WordChar) && s[c.w] == '('
    && c.e0 == Scan(s, c.w + 1, NotComma)
    && c.e1 == Scan(s, c.e0 + 1, NotComma)
    && (var b := Scan(s, c.e0 + 1, Space); c.p1 == (if b < c.e1 then b else c.e1 - 1) && b <= c.e1)
    && c.p2 == Scan(s, c.e1 + 1, Space)
    && LastIn(s, c.p2, Scan(s, c.p2, NotNewline), ')') == Some(c.k)
  }

  lemma FindLocated(s: string)
    requires Find(s).Some?
    ensures Located(s, Find(s).value)
  {
    var c := Find(s).value;
    ScanRun(s, c.e0 + 1, NotComma);
    ScanRun(s, c.e0 + 1, Space);
  }

  lemma Cut(s: string, i: nat, j: nat)
    requires i <= j <= |s|
    ensures s[..j] == s[..i] + s[i..j]
  {
  }

  lemma CutChar(s: string, i: nat)
    requires i < |s|
    ensures s[..i + 1] == s[..i] + [s[i]]
  {
  }

  lemma Cancel(a: string, b: string, c: string, d: string)
    requires a + b == c + d && |b| == |d|
    ensures a == c && b == d
  {
    assert a == (a + b)[..|a|] && c == (c + d)[..|c|];
    assert b == (a + b)[|a|..] && d == (c + d)[|c|..];
  }

  /** Whatever Split returns is a greedy match at the start of s. */
  lemma SplitSound(s: string)
    requires Split(s).Some?
    ensures Shaped(s, Split(s).value)
  {
    FindLocated(s);
    LocatedShaped(s, Find(s).value);
  }

  lemma LocatedShaped(s: string, c: Cuts)
    requires Located(s, c)
    ensures Shaped(s, PartsAt(s, c))
  {
    LocatedMarks(s, c);
    LocatedFits(s, c);
    LocatedLine(s, c);
    CutsShaped(s, c);
  }

  /** Cuts whose pieces fit the pattern as the matcher picks them give a greedy match. */
  lemma CutsShaped(s: string, c: Cuts)
    requires Ordered(s, c) && s[c.w] == '(' && s[c.e0] == ',' && s[c.e1] == ',' && s[c.k] == ')'
    requires Fits(PartsAt(s, c))
    requires PartsAt(s, c).dim1[0] == ' ' ==> PartsAt(s, c).dim1 == " "
    requires |PartsAt(s, c).rest| > 0 ==> PartsAt(s, c).rest[0] != ' '
    requires NoCloseInLine(s, c.k + 1)
    ensures Shaped(s, PartsAt(s, c))
  {
    var p := PartsAt(s, c);
    SoundHead(s, p, c.w, c.e0, c.p1, c.e1, c.p2, c.k);
    ShapedFrom(s, p, c.k);
  }

  /** The delimiters sit where the cuts say. */
  lemma LocatedMarks(s: string, c: Cuts)
    requires Located(s, c)
    ensures s[c.e0] == ',' && s[c.e1] == ',' && s[c.k] == ')'
  {
    ScanRun(s, c.w + 1, NotComma);
    ScanRun(s, c.e0 + 1, NotComma);
    LastInFacts(s, c.p2, Scan(s, c.p2, NotNewline), ')');
  }

  lemma LocatedLine(s: string, c: Cuts)
    requires Located(s, c)
    ensures NoCloseInLine(s, c.k + 1)
  {
    var line := Scan(s, c.p2, NotNewline);
    LastInFacts(s, c.p2, line, ')');
    SoundLine(s, c.p2, line, c.k);
  }

  lemma SoundLine(s: string, p2: nat, line: nat, k: nat)
    requires p2 <= k < line <= |s| && line == Scan(s, p2, NotNewline)
    requires forall m :: k < m < line ==> s[m] != ')'
    ensures NoCloseInLine(s, k + 1)
  {
    ScanRun(s, p2, NotNewline);
    ScanUnique(s, k + 1, NotNewline, line);
  }

  lemma ShapedFrom(s: string, p: Parts, k: nat)
    requires k < |s| && Head(p) == s[..k + 1] && Fits(p) && NoCloseInLine(s, k + 1)
    requires p.dim1[0] == ' ' ==> p.dim1 == " "
    requires |p.rest| > 0 ==> p.rest[0] != ' '
    ensures Shaped(s, p)
  {
  }

  lemma SoundHead(s: string, p: Parts, w: nat, e0: nat, p1: nat, e1: nat, p2: nat, k: nat)
    requires w < e0 < p1 <= e1 < p2 <= k < |s|
    requires s[w] == '(' && s[e0] == ',' && s[e1] == ',' && s[k] == ')'
    requires p == Parts(s[..w], s[w + 1..e0], s[e0 + 1..p1], s[p1..e1], s[e1 + 1..p2], s[p2..k])
    ensures Head(p) == s[..k + 1]
  {
    calc {
      s[..k + 1];
      { CutChar(s, k); }
      s[..p2] + s[p2..k] + ")";
      { CutChar(s, k); Cut(s, p2, k); }
      s[..e1 + 1] + s[e1 + 1..p2] + s[p2..k] + ")";
      { Cut(s, e1 + 1, p2); CutChar(s, e1); }
      s[..e1] + "," + s[e1 + 1..p2] + s[p2..k] + ")";
      { Cut(s, p1, e1); }
      s[..p1] + s[p1..e1] + "," + s[e1 + 1..p2] + s[p2..k] + ")";
      { Cut(s, e0 + 1, p1); }
      s[..e0 + 1] + s[e0 + 1..p1] + s[p1..e1] + "," + s[e1 + 1..p2] + s[p2..k] + ")";
      { CutChar(s, e0); }
      s[..e0] + "," + s[e0 + 1..p1] + s[p1..e1] + "," + s[e1 + 1..p2] + s[p2..k] + ")";
      { Cut(s, w + 1, e0); }
      s[..w + 1] + s[w + 1..e0] + "," + s[e0 + 1..p1] + s[p1..e1] + "," + s[e1 + 1..p2] + s[p2..k] + ")";
      { CutChar(s, w); }
      Head(p);
    }
  }

  /** The characters of s[a..j] are in cl when [a, j) lies inside the run that starts at i. */
  lemma RunSlice(s: string, i: nat, a: nat, j: nat, cl: Class)
    requires i <= |s| && i <= a <= j <= Scan(s, i, cl)
    ensures All(s[a..j], cl)
  {
    ScanRun(s, i, cl);
    SliceAll(s, a, j, cl);
  }

  lemma LocatedFits(s: string, c: Cuts)
    requires Located(s, c)
    ensures Fits(PartsAt(s, c))
    ensures PartsAt(s, c).dim1[0] == ' ' ==> PartsAt(s, c).dim1 == " "
    ensures |PartsAt(s, c).rest| > 0 ==> PartsAt(s, c).rest[0] != ' '
  {
    LocatedRuns(s, c);
    LocatedFirsts(s, c);
    var p := PartsAt(s, c);
    assert p.dim1[0] == s[c.p1];
    if s[c.p1] == ' ' {
      assert p.dim1 == [s[c.p1]];
    }
    if |p.rest| > 0 {
      assert p.rest[0] == s[c.p2];
    }
  }

  lemma LocatedRuns(s: string, c: Cuts)
    requires Located(s, c)
    ensures All(s[..c.w], WordChar) && All(s[c.w + 1..c.e0], NotComma)
    ensures All(s[c.e0 + 1..c.p1], Space) && All(s[c.p1..c.e1], NotComma)
    ensures All(s[c.e1 + 1..c.p2], Space) && All(s[c.p2..c.k], NotNewline)
  {
    RunSlice(s, 0, 0, c.w, WordChar);
    assert s[0..c.w] == s[..c.w];
    RunSlice(s, c.w + 1, c.w + 1, c.e0, NotComma);
    RunSlice(s, c.e0 + 1, c.e0 + 1, c.p1, Space);
    RunSlice(s, c.e0 + 1, c.p1, c.e1, NotComma);
    RunSlice(s, c.e1 + 1, c.e1 + 1, c.p2, Space);
    LastInFacts(s, c.p2, Scan(s, c.p2, NotNewline), ')');
    RunSlice(s, c.p2, c.p2, c.k, NotNewline);
  }

  /** dim1 starts with a blank only when it is a single blank; rest never starts with one. */
  lemma LocatedFirsts(s: string, c: Cuts)
    requires Located(s, c)
    ensures s[c.p1] == ' ' ==> c.p1 + 1 == c.e1
    ensures c.p2 < c.k ==> s[c.p2] != ' '
  {
    ScanRun(s, c.e0 + 1, Space);
    ScanRun(s, c.e1 + 1, Space);
  }

  /** The characters of a slice that is all cl. */
  lemma SliceRun(s: string, i: nat, j: nat, cl: Class)
    requires i <= j <= |s| && All(s[i..j], cl)
    ensures forall k :: i <= k < j ==> In(s[k], cl)
  {
    assert forall k :: i <= k < j ==> s[k] == s[i..j][k - i];
  }

  /** The cuts of a match read off its pieces. */
  function CutsOf(p: Parts): Cuts
  {
    var o1 := |p.word|;
    var o2 := o1 + 1 + |p.dim0|;
    var o3 := o2 + 1 + |p.pad1|;
    var o4 := o3 + |p.dim1|;
    var o5 := o4 + 1 + |p.pad2|;
    Cuts(o1, o2, o3, o4, o5, o5 + |p.rest|)
  }

  /** The pieces of a match sit in s where CutsOf says. */
  lemma HeadSlices(s: string, p: Parts)
    requires Head(p) <= s && Fits(p)
    ensures var c := CutsOf(p);
      Ordered(s, c) && PartsAt(s, c) == p
      && s[c.w] == '(' && s[c.e0] == ',' && s[c.e1] == ',' && s[c.k] == ')'
  {
    var c := CutsOf(p);
    var h := Head(p);
    assert |h| == c.k + 1;
    assert s[..c.k + 1] == h;
    var h5 := p.word + "(" + p.dim0 + "," + p.pad1 + p.dim1 + "," + p.pad2;
    var h3 := p.word + "(" + p.dim0 + "," + p.pad1;
    var h1 := p.word + "(" + p.dim0 + ",";
    Cut(s, c.k, c.k + 1);
    Cancel(s[..c.k], s[c.k..c.k + 1], h5 + p.rest, ")");
    Cut(s, c.p2, c.k);
    Cancel(s[..c.p2], s[c.p2..c.k], h5, p.rest);
    Cut(s, c.e1 + 1, c.p2);
    Cancel(s[..c.e1 + 1], s[c.e1 + 1..c.p2], h3 + p.dim1 + ",", p.pad2);
    Cut(s, c.e1, c.e1 + 1);
    Cancel(s[..c.e1], s[c.e1..c.e1 + 1], h3 + p.dim1, ",");
    Cut(s, c.p1, c.e1);
    Cancel(s[..c.p1], s[c.p1..c.e1], h3, p.dim1);
    Cut(s, c.e0 + 1, c.p1);
    Cancel(s[..c.e0 + 1], s[c.e0 + 1..c.p1], h1, p.pad1);
    Cut(s, c.e0, c.e0 + 1);
    Cancel(s[..c.e0], s[c.e0..c.e0 + 1], p.word + "(" + p.dim0, ",");
    Cut(s, c.w + 1, c.e0);
    Cancel(s[..c.w + 1], s[c.w + 1..c.e0], p.word + "(", p.dim0);
    Cut(s, c.w, c.w + 1);
    Cancel(s[..c.w], s[c.w..c.w + 1], p.word, "(");
    assert s[c.w] == s[c.w..c.w + 1][0] && s[c.e0] == s[c.e0..c.e0 + 1][0];
    assert s[c.e1] == s[c.e1..c.e1 + 1][0] && s[c.k] == s[c.k..c.k + 1][0];
  }

  /** A greedy match is where Find looks. */
  lemma ShapedLocated(s: string, p: Parts)
    requires Shaped(s, p)
    ensures Located(s, CutsOf(p))
  {
    var c := CutsOf(p);
    HeadSlices(s, p);
    ShapedCuts(s, p, c);
    CutsLocated(s, c);
  }

  /** The facts of a greedy match, read at its cuts. */
  lemma ShapedCuts(s: string, p: Parts, c: Cuts)
    requires Shaped(s, p) && c == CutsOf(p) && PartsAt(s, c) == p && Ordered(s, c)
    ensures All(s[..c.w], WordChar) && All(s[c.w + 1..c.e0], NotComma)
    ensures All(s[c.e0 + 1..c.p1], Space) && All(s[c.p1..c.e1], NotComma)
    ensures All(s[c.e1 + 1..c.p2], Space) && All(s[c.p2..c.k], NotNewline)
    ensures s[c.p1] == ' ' ==> c.p1 + 1 == c.e1
    ensures c.p2 < c.k ==> s[c.p2] != ' '
    ensures NoCloseInLine(s, c.k + 1)
  {
    assert |Head(p)| == c.k + 1;
    assert p.dim1[0] == s[c.p1];
    if c.p2 < c.k {
      assert p.rest[0] == s[c.p2];
    }
  }

  /** Cuts with the facts of a greedy match are the ones Find computes. */
  lemma CutsLocated(s: string, c: Cuts)
    requires Ordered(s, c) && s[c.w] == '(' && s[c.e0] == ',' && s[c.e1] == ',' && s[c.k] == ')'
    requires All(s[..c.w], WordChar) && All(s[c.w + 1..c.e0], NotComma)
    requires All(s[c.e0 + 1..c.p1], Space) && All(s[c.p1..c.e1], NotComma)
    requires All(s[c.e1 + 1..c.p2], Space) && All(s[c.p2..c.k], NotNewline)
    requires s[c.p1] == ' ' ==> c.p1 + 1 == c.e1
    requires c.p2 < c.k ==> s[c.p2] != ' '
    requires NoCloseInLine(s, c.k + 1)
    ensures Located(s, c)
  {
    ShapedWord(s, c);
    ShapedDim1(s, c);
    ShapedRest(s, c);
  }

  lemma ShapedWord(s: string, c: Cuts)
    requires Ordered(s, c) && s[c.w] == '(' && s[c.e0] == ','
    requires All(s[..c.w], WordChar) && All(s[c.w + 1..c.e0], NotComma)
    ensures c.w == Scan(s, 0, WordChar) && c.e0 == Scan(s, c.w + 1, NotComma)
  {
    assert s[0..c.w] == s[..c.w];
    SliceRun(s, 0, c.w, WordChar);
    ScanUnique(s, 0, WordChar, c.w);
    SliceRun(s, c.w + 1, c.e0, NotComma);
    ScanUnique(s, c.w + 1, NotComma, c.e0);
  }

  lemma ShapedDim1(s: string, c: Cuts)
    requires Ordered(s, c) && s[c.e1] == ','
    requires All(s[c.e0 + 1..c.p1], Space) && All(s[c.p1..c.e1], NotComma)
    requires s[c.p1] == ' ' ==> c.p1 + 1 == c.e1
    ensures c.e1 == Scan(s, c.e0 + 1, NotComma)
    ensures var b := Scan(s, c.e0 + 1, Space); c.p1 == (if b < c.e1 then b else c.e1 - 1) && b <= c.e1
  {
    SliceRun(s, c.e0 + 1, c.p1, Space);
    SliceRun(s, c.p1, c.e1, NotComma);
    ScanUnique(s, c.e0 + 1, NotComma, c.e1);
    if s[c.p1] != ' ' {
      ScanUnique(s, c.e0 + 1, Space, c.p1);
    } else {
      ScanUnique(s, c.e0 + 1, Space, c.e1);
    }
  }

  lemma ShapedRest(s: string, c: Cuts)
    requires Ordered(s, c) && s[c.k] == ')'
    requires All(s[c.e1 + 1..c.p2], Space) && All(s[c.p2..c.k], NotNewline)
    requires c.p2 < c.k ==> s[c.p2] != ' '
    requires NoCloseInLine(s, c.k + 1)
    ensures c.p2 == Scan(s, c.e1 + 1, Space)
    ensures LastIn(s, c.p2, Scan(s, c.p2, NotNewline), ')') == Some(c.k)
  {
    SliceRun(s, c.e1 + 1, c.p2, Space);
    ScanUnique(s, c.e1 + 1, Space, c.p2);
    SliceRun(s, c.p2, c.k, NotNewline);
    var line := Scan(s, c.k + 1, NotNewline);
    ScanRun(s, c.k + 1, NotNewline);
    ScanUnique(s, c.p2, NotNewline, line);
    LastInUnique(s, c.p2, line, ')', c.k);
  }

  /** Find returns the cuts its equations describe. */
  lemma LocatedFind(s: string, c: Cuts)
    requires Located(s, c)
    ensures Find(s) == Some(c)
  {
  }

  /** Split finds every greedy match at the start of s. */
  lemma SplitExact(s: string, p: Parts)
    requires Shaped(s, p)
    ensures Split(s) == Some(p)
  {
    ShapedLocated(s, p);
    LocatedFind(s, CutsOf(p));
    HeadSlices(s, p);
  }

  /** Split is exactly the greedy match at the start of s. */
  lemma SplitShaped(s: string, p: Parts)
    ensures Split(s) == Some(p) <==> Shaped(s, p)
  {
    if Split(s) == Some(p) {
      SplitSound(s);
    }
    if Shaped(s, p) {
      SplitExact(s, p);
    }
  }

  // ---------------------------------------------------------------------------
  // Searching

  /** The first position from `from` on where the pattern matches. */
  function Leftmost(text: string, from: nat): (r: Option<nat>)
    requires from <= |text|
    ensures r.Some? ==> from <= r.value <= |text| && Split(text[r.value..]).Some?
    decreases |text| - from
  {
    if Split(text[from..]).Some? then Some(from)
    else if from == |text| then None
    else Leftmost(text, from + 1)
  }

  /** Leftmost finds the first match: there is none before it, and none at all when it finds nothing. */
  lemma LeftmostFirst(text: string, from: nat)
    requires from <= |text|
    ensures Leftmost(text, from).Some? ==> forall i :: from <= i < Leftmost(text, from).value ==> Split(text[i..]).None?
    ensures Leftmost(text, from).None? ==> forall i :: from <= i <= |text| ==> Split(text[i..]).None?
  {
    if Leftmost(text, from).Some? {
      LeftmostBefore(text, from);
    } else {
      LeftmostNone(text, from);
    }
  }

  /** No position before the one Leftmost finds matches. */
  lemma {:induction false} LeftmostBefore(text: string, from: nat)
    requires from <= |text| && Leftmost(text, from).Some?
    ensures forall i :: from <= i < Leftmost(text, from).value ==> Split(text[i..]).None?
    decreases |text| - from
  {
    if Split(text[from..]).None? {
      assert Leftmost(text, from) == Leftmost(text, from + 1);
      LeftmostBefore(text, from + 1);
    }
  }

  /** When Leftmost finds nothing, no position from `from` on matches. */
  lemma {:induction false} LeftmostNone(text: string, from: nat)
    requires from <= |text| && Leftmost(text, from).None?
    ensures forall i :: from <= i <= |text| ==> Split(text[i..]).None?
    decreases |text| - from
  {
    if from < |text| {
      LeftmostNone(text, from + 1);
    }
  }

  /** The leftmost match in text. */
  function Search(text: string): (r: Option<Parts>)
    ensures r.Some? ==> |r.value.rest| < |text|
  {
    match Leftmost(text, 0)
    case None => None
    case Some(i) => Split(text[i..])
  }

  /** A match at the start is the leftmost one. */
  lemma SearchAtStart(text: string)
    requires Split(text).Some?
    ensures Search(text) == Split(text)
  {
    assert text[0..] == text;
  }

  // ---------------------------------------------------------------------------
  // Layout kinds

  function KindName(k: Kind): string
  {
    match k
    case RowMaj => "ROWMAJ"
    case ColMaj => "COLMAJ"
    case ZMorton => "ZMORTON"
    case HilbertCurve => "HILBERT"
  }

  /** The first kind, in the order ROWMAJ, COLMAJ, ZMORTON, HILBERT, whose name starts with word. */
  function ResolveKind(word: string): Result<Kind>
  {
    if word <= KindName(RowMaj) then Ok(RowMaj)
    else if word <= KindName(ColMaj) then Ok(ColMaj)
    else if word <= KindName(ZMorton) then Ok(ZMorton)
    else if word <= KindName(HilbertCurve) then Ok(HilbertCurve)
    else Fail(UnknownLayout(word))
  }

  /** The names start with distinct letters, so a non-empty word names at most one kind, and does so exactly when it is a prefix of that kind's name. */
  lemma ResolveKindPrefix(word: string, k: Kind)
    requires |word| > 0
    ensures ResolveKind(word) == Ok(k) <==> word <= KindName(k)
  {
    if word <= KindName(k) {
      assert word[0] == KindName(k)[0];
      match k
      case RowMaj =>
      case ColMaj =>
        assert !(word <= KindName(RowMaj)) by { assert KindName(RowMaj)[0] != word[0]; }
      case ZMorton =>
        assert !(word <= KindName(RowMaj)) by { assert KindName(RowMaj)[0] != word[0]; }
        assert !(word <= KindName(ColMaj)) by { assert KindName(ColMaj)[0] != word[0]; }
      case HilbertCurve =>
        assert !(word <= KindName(RowMaj)) by { assert KindName(RowMaj)[0] != word[0]; }
        assert !(word <= KindName(ColMaj)) by { assert KindName(ColMaj)[0] != word[0]; }
        assert !(word <= KindName(ZMorton)) by { assert KindName(ZMorton)[0] != word[0]; }
    }
  }

  /** A word that starts no kind name is an unknown layout. */
  lemma ResolveKindUnknown(word: string)
    ensures ResolveKind(word) == Fail(UnknownLayout(word))
        <==> forall k: Kind :: !(word <= KindName(k))
  {
    if ResolveKind(word).Fail? {
      forall k: Kind ensures !(word <= KindName(k)) {
        match k
        case RowMaj =>
        case ColMaj =>
        case ZMorton =>
        case HilbertCurve =>
      }
    } else {
      var k := ResolveKind(word).value;
      assert word <= KindName(k);
    }
  }

  /** Every kind is named by its own name, and by each of its non-empty abbreviations. */
  lemma ResolveKindName(k: Kind, n: nat)
    requires 0 < n <= |KindName(k)|
    ensures ResolveKind(KindName(k)[..n]) == Ok(k)
  {
    ResolveKindPrefix(KindName(k)[..n], k);
  }

  // ---------------------------------------------------------------------------
  // Dimensions

  /** The reserved words of the expression language, which cannot name a variable. */
  const Keywords: set<string> := {
    "and", "as", "assert", "break", "class", "continue", "def", "del", "elif", "else",
    "except", "exec", "finally", "for", "from", "global", "if", "import", "in", "is",
    "lambda", "not", "or", "pass", "print", "raise", "return", "try", "while", "with", "yield"
  }

  /** A decimal literal: digits, with no leading zero unless it is 0 itself. */
  predicate IsNumeral(s: string)
  {
    |s| > 0 && (forall k :: 0 <= k < |s| ==> IsDigit(s[k])) && (s[0] == '0' ==> |s| == 1)
  }

  /** A variable name. */
  predicate IsIdentifier(s: string)
  {
    |s| > 0 && (IsLetter(s[0]) || s[0] == '_') && All(s, WordChar) && s !in Keywords
  }

  function DigitValue(c: char): nat
    requires IsDigit(c)
  {
    c as int - '0' as int
  }

  function NumeralValue(s: string): nat
    requires forall k :: 0 <= k < |s| ==> IsDigit(s[k])
  {
    if |s| == 0 then 0 else 10 * NumeralValue(s[..|s| - 1]) + DigitValue(s[|s| - 1])
  }

  /** s without its trailing blanks. */
  function TrimEnd(s: string): (r: string)
    ensures r <= s && (|r| > 0 ==> r[|r| - 1] != ' ')
    ensures forall k :: |r| <= k < |s| ==> s[k] == ' '
  {
    if |s| > 0 && s[|s| - 1] == ' ' then TrimEnd(s[..|s| - 1]) else s
  }

  /** A dimension: a decimal literal, reduced to 32 bits, or a variable; trailing blanks are ignored. */
  function ParseTerm(text: string): Result<Term>
  {
    var core := TrimEnd(text);
    if IsNumeral(core) then Ok(Lit(Wrap(NumeralValue(core))))
    else if IsIdentifier(core) then Ok(Name(core))
    else Fail(BadTerm(text))
  }

  function DigitChar(d: nat): (c: char)
    requires d < 10
    ensures IsDigit(c) && DigitValue(c) == d
  {
    ('0' as int + d) as char
  }

  /** The decimal text of n. */
  function NumeralText(n: nat): (s: string)
    ensures forall k :: 0 <= k < |s| ==> IsDigit(s[k])
    decreases n
  {
    if n < 10 then [DigitChar(n)] else NumeralText(n / 10) + [DigitChar(n % 10)]
  }

  /** The decimal text of n is a numeral whose value is n. */
  lemma {:induction false} NumeralRoundTrip(n: nat)
    ensures IsNumeral(NumeralText(n)) && NumeralValue(NumeralText(n)) == n
    decreases n
  {
    var s := NumeralText(n);
    if n >= 10 {
      NumeralRoundTrip(n / 10);
      var t := NumeralText(n / 10);
      assert s[..|s| - 1] == t;
      assert s[0] == t[0];
    }
  }

  /** The variables of a declaration are all proper identifiers. */
  predicate WellNamed(t: Term)
  {
    t.Name? ==> IsIdentifier(t.id)
  }

  function TermText(t: Term): string
  {
    match t
    case Lit(v) => NumeralText(v)
    case Name(x) => x
  }

  /** Reading back the text of a term gives the term. */
  lemma TermRoundTrip(t: Term)
    requires WellNamed(t)
    ensures ParseTerm(TermText(t)) == Ok(t)
  {
    match t
    case Lit(v) =>
      NumeralRoundTrip(v);
      WrapSmall(v);
    case Name(x) =>
      assert !IsDigit(x[0]);
  }

  /** Every term ParseTerm accepts is well named. */
  lemma ParseTermWellNamed(text: string)
    requires ParseTerm(text).Ok?
    ensures WellNamed(ParseTerm(text).value)
  {
  }

  // ---------------------------------------------------------------------------
  // Declarations

  /** The declaration that text holds: the leftmost match, its kind, its dimensions and its element. */
  function Factory(text: string): Result<Decl>
    decreases |text|, 1
  {
    match Search(text)
    case None => Fail(NoMatch)
    case Some(p) =>
      match ResolveKind(p.word)
      case Fail(e) => Fail(e)
      case Ok(k) => Declare(k, p)
  }

  /** A node of kind k from the groups of its match; its element is a nested declaration when rest matches, or else the terminal 1. */
  function Declare(k: Kind, p: Parts): Result<Decl>
    decreases |p.rest|, 2
  {
    match ParseTerm(p.dim0)
    case Fail(e) => Fail(e)
    case Ok(a) =>
      match ParseTerm(p.dim1)
      case Fail(e) => Fail(e)
      case Ok(b) =>
        if Split(p.rest).Some? then
          match Factory(p.rest)
          case Fail(e) => Fail(e)
          case Ok(r) => Ok(Decl(k, a, b, Inner(r)))
        else if p.rest == "1" then Ok(Decl(k, a, b, Unit))
        else Fail(UnsupportedTerminal(p.rest))
  }

  /** All variables of the tree are proper identifiers. */
  predicate WellNamedDecl(d: Decl)
  {
    WellNamed(d.dim0) && WellNamed(d.dim1) && (d.rest.Inner? ==> WellNamedDecl(d.rest.decl))
  }

  /** The text of d, its top-level kind written as word. */
  function Render(word: string, d: Decl): string
    decreases d
  {
    Head(RenderParts(word, d))
  }

  /** The groups of the text of d: no blanks, and the element written as 1 or as its own text. */
  function RenderParts(word: string, d: Decl): Parts
    decreases d, 0
  {
    var rest := match d.rest case Unit => "1" case Inner(e) => Render(KindName(e.kind), e);
    Parts(word, TermText(d.dim0), "", TermText(d.dim1), "", rest)
  }

  /** The canonical text of d. */
  function Print(d: Decl): string
  {
    Render(KindName(d.kind), d)
  }

  lemma AllConcat(a: string, b: string, cl: Class)
    ensures All(a + b, cl) <==> All(a, cl) && All(b, cl)
  {
    if All(a, cl) && All(b, cl) {
      assert forall k :: 0 <= k < |a + b| ==> (a + b)[k] == if k < |a| then a[k] else b[k - |a|];
    }
    if All(a + b, cl) {
      assert forall k :: 0 <= k < |a| ==> a[k] == (a + b)[k];
      assert forall k :: 0 <= k < |b| ==> b[k] == (a + b)[|a| + k];
    }
  }

  /** The text of a term is a non-empty run of word characters. */
  lemma TermTextWord(t: Term)
    requires WellNamed(t)
    ensures |TermText(t)| > 0 && All(TermText(t), WordChar)
  {
  }

  lemma KindNameWord(k: Kind)
    ensures |KindName(k)| > 0 && All(KindName(k), WordChar)
  {
  }

  lemma WordLine(s: string)
    requires All(s, WordChar)
    ensures All(s, NotNewline) && All(s, NotComma)
  {
  }

  /** The text of a match with no line break in its groups has none either. */
  lemma HeadLine(p: Parts)
    requires Fits(p) && All(p.dim0, NotNewline) && All(p.dim1, NotNewline)
    ensures All(Head(p), NotNewline) && Head(p)[0] != ' '
  {
    WordLine(p.word);
    assert All(p.pad1, NotNewline) && All(p.pad2, NotNewline);
    var h := p.word;
    AllConcat(h, "(", NotNewline); h := h + "(";
    AllConcat(h, p.dim0, NotNewline); h := h + p.dim0;
    AllConcat(h, ",", NotNewline); h := h + ",";
    AllConcat(h, p.pad1, NotNewline); h := h + p.pad1;
    AllConcat(h, p.dim1, NotNewline); h := h + p.dim1;
    AllConcat(h, ",", NotNewline); h := h + ",";
    AllConcat(h, p.pad2, NotNewline); h := h + p.pad2;
    AllConcat(h, p.rest, NotNewline); h := h + p.rest;
    AllConcat(h, ")", NotNewline); h := h + ")";
    assert h == Head(p);
  }

  /** The text of a match reads back as that match when its groups are as the matcher would pick them. */
  lemma HeadSplit(p: Parts)
    requires Fits(p) && (p.dim1[0] == ' ' ==> p.dim1 == " ") && (|p.rest| > 0 ==> p.rest[0] != ' ')
    ensures Split(Head(p)) == Some(p) && Search(Head(p)) == Some(p)
  {
    var s := Head(p);
    assert s[|s|..] == [];
    assert Shaped(s, p);
    SplitExact(s, p);
    SearchAtStart(s);
  }

  /** The groups of a rendered declaration fit the pattern, as the matcher picks them. */
  lemma {:induction false} RenderFits(word: string, d: Decl)
    requires |word| > 0 && All(word, WordChar) && WellNamedDecl(d)
    ensures var p := RenderParts(word, d);
      Fits(p) && All(p.dim0, NotNewline) && All(p.dim1, NotNewline)
      && p.dim1[0] != ' ' && |p.rest| > 0 && p.rest[0] != ' '
    decreases d
  {
    TermTextWord(d.dim0);
    TermTextWord(d.dim1);
    WordLine(TermText(d.dim0));
    WordLine(TermText(d.dim1));
    match d.rest
    case Unit =>
    case Inner(e) =>
      KindNameWord(e.kind);
      RenderFits(KindName(e.kind), e);
      HeadLine(RenderParts(KindName(e.kind), e));
  }

  // ---------------------------------------------------------------------------
  // Reading declarations back

  /** The text of d with its kind written as any word reads back as d with the kind that word abbreviates, or fails on that word. */
  lemma {:induction false} FactoryRender(word: string, d: Decl)
    requires |word| > 0 && All(word, WordChar) && WellNamedDecl(d)
    ensures ResolveKind(word).Ok? ==> Factory(Render(word, d)) == Ok(d.(kind := ResolveKind(word).value))
    ensures ResolveKind(word).Fail? ==> Factory(Render(word, d)) == Fail(UnknownLayout(word))
    decreases d, 1
  {
    var p := RenderParts(word, d);
    RenderFits(word, d);
    if ResolveKind(word).Ok? {
      var k := ResolveKind(word).value;
      FactoryHead(p, k);
      DeclareRendered(k, word, d);
    } else {
      HeadSplit(p);
    }
  }

  /** The node built from the groups of a rendered declaration is that declaration. */
  lemma {:induction false} DeclareRendered(k: Kind, word: string, d: Decl)
    requires WellNamedDecl(d)
    ensures Declare(k, RenderParts(word, d)) == Ok(d.(kind := k))
    decreases d, 0
  {
    TermRoundTrip(d.dim0);
    TermRoundTrip(d.dim1);
    match d.rest
    case Unit =>
      SplitOne();
    case Inner(e) =>
      var n := KindName(e.kind);
      KindNameWord(e.kind);
      ResolveKindName(e.kind, |n|);
      assert n[..|n|] == n;
      FactoryRender(n, e);
      RenderFits(n, e);
      HeadSplit(RenderParts(n, e));
  }

  /** FactoryRender, for a text known to be the rendering of d. */
  lemma ReadRendered(word: string, d: Decl, text: string, r: Result<Decl>)
    requires |word| > 0 && All(word, WordChar) && WellNamedDecl(d) && Render(word, d) == text
    requires r == if ResolveKind(word).Ok? then Ok(d.(kind := ResolveKind(word).value)) else Fail(UnknownLayout(word))
    ensures Factory(text) == r
  {
    FactoryRender(word, d);
  }

  /** Reading the canonical text of a well-named declaration gives it back. */
  lemma PrintRoundTrip(d: Decl)
    requires WellNamedDecl(d)
    ensures Factory(Print(d)) == Ok(d)
  {
    KindNameWord(d.kind);
    ResolveKindName(d.kind, |KindName(d.kind)|);
    assert KindName(d.kind)[..|KindName(d.kind)|] == KindName(d.kind);
    FactoryRender(KindName(d.kind), d);
  }

  /** Any non-empty abbreviation of the kind's name reads back as the same declaration. */
  lemma AbbreviationRoundTrip(d: Decl, n: nat)
    requires WellNamedDecl(d) && 0 < n <= |KindName(d.kind)|
    ensures Factory(Render(KindName(d.kind)[..n], d)) == Ok(d)
  {
    KindNameWord(d.kind);
    ResolveKindName(d.kind, n);
    var w := KindName(d.kind)[..n];
    assert All(w, WordChar) by {
      assert forall i :: 0 <= i < |w| ==> w[i] == KindName(d.kind)[i];
    }
    FactoryRender(w, d);
  }

  /** Every declaration that is read has proper identifiers as its variable names. */
  lemma {:induction false} FactoryWellNamed(text: string)
    requires Factory(text).Ok?
    ensures WellNamedDecl(Factory(text).value)
    decreases |text|
  {
    var p := Search(text).value;
    var k := ResolveKind(p.word).value;
    ParseTermWellNamed(p.dim0);
    ParseTermWellNamed(p.dim1);
    if Split(p.rest).Some? {
      FactoryWellNamed(p.rest);
    }
  }

  /** Reading is idempotent up to notation: a declaration read from any text is read again, unchanged, from its canonical text. */
  lemma FactoryNormalizes(text: string)
    requires Factory(text).Ok?
    ensures Factory(Print(Factory(text).value)) == Factory(text)
  {
    FactoryWellNamed(text);
    PrintRoundTrip(Factory(text).value);
  }

  /** A node whose groups match never fails for want of a match: its errors are about the kind, a dimension or the element. */
  lemma {:induction false} DeclareMatched(k: Kind, p: Parts)
    ensures Declare(k, p) != Fail(NoMatch)
    decreases |p.rest|, 2
  {
    if Split(p.rest).Some? {
      SearchAtStart(p.rest);
      FactoryMatched(p.rest);
    }
  }

  /** A text in which the search finds a match is never reported as holding none. */
  lemma {:induction false} FactoryMatched(text: string)
    requires Search(text).Some?
    ensures Factory(text) != Fail(NoMatch)
    decreases |text|, 1
  {
    var q := Search(text).value;
    if ResolveKind(q.word).Ok? {
      DeclareMatched(ResolveKind(q.word).value, q);
    }
  }

  /** Reading fails with NoMatch exactly when the search finds nothing. */
  lemma FactorySearch(text: string)
    ensures Factory(text) == Fail(NoMatch) <==> Search(text).None?
  {
    if Search(text).Some? {
      FactoryMatched(text);
    }
  }

  /** Reading fails with NoMatch exactly when the pattern matches at no position of the text. */
  lemma FactoryNoMatch(text: string)
    ensures Factory(text) == Fail(NoMatch) <==> forall i :: 0 <= i <= |text| ==> Split(text[i..]).None?
  {
    FactorySearch(text);
    LeftmostFirst(text, 0);
    if Leftmost(text, 0).Some? {
      var i := Leftmost(text, 0).value;
      assert Split(text[i..]).Some?;
    }
  }

  /** The text of a match as the matcher picks it is read through the node of its kind. */
  lemma FactoryHead(p: Parts, k: Kind)
    requires Fits(p) && (p.dim1[0] == ' ' ==> p.dim1 == " ") && (|p.rest| > 0 ==> p.rest[0] != ' ')
    requires ResolveKind(p.word) == Ok(k)
    ensures Factory(Head(p)) == Declare(k, p)
  {
    HeadSplit(p);
  }

  /** r occurs in s as a contiguous piece. */
  predicate Within(r: string, s: string)
  {
    exists i, j :: 0 <= i <= j <= |s| && s[i..j] == r
  }

  /** A piece of a piece of s is a piece of s. */
  lemma WithinTrans(r: string, t: string, s: string)
    requires Within(r, t) && Within(t, s)
    ensures Within(r, s)
  {
    var a, b :| 0 <= a <= b <= |t| && t[a..b] == r;
    var i, j :| 0 <= i <= j <= |s| && s[i..j] == t;
    assert |s[i + a..i + b]| == |r|;
    forall e | 0 <= e < |r|
      ensures s[i + a..i + b][e] == r[e]
    {
      assert r[e] == t[a + e];
      assert t[a + e] == s[i + a + e];
    }
    assert s[i + a..i + b] == r;
  }

  /** The rest group of a match is cut out of the matched text. */
  lemma SplitRestWithin(s: string)
    requires Split(s).Some?
    ensures Within(Split(s).value.rest, s)
  {
    var c := Find(s).value;
    assert s[c.p2..c.k] == Split(s).value.rest;
  }

  /**
   * An unsupported element reported while reading a node is a piece of that
   * node's rest, and it is an innermost text: neither 1 nor a match.
   */
  lemma {:induction false} DeclareUnsupported(k: Kind, p: Parts, r: string)
    requires Declare(k, p) == Fail(UnsupportedTerminal(r))
    ensures Within(r, p.rest) && Split(r).None? && r != "1"
    decreases |p.rest|
  {
    if Split(p.rest).Some? {
      SearchAtStart(p.rest);
      var q := Search(p.rest).value;
      DeclareUnsupported(ResolveKind(q.word).value, q, r);
      SplitRestWithin(p.rest);
      WithinTrans(r, q.rest, p.rest);
    } else {
      assert p.rest[0..|p.rest|] == p.rest;
    }
  }

  /**
   * The terminal rule through nesting: when the top node's rest matches, the text reports
   * exactly the unsupported element its nested declaration reports.
   */
  lemma FactoryInner(p: Parts, k: Kind, a: Term, b: Term, r: string)
    requires Fits(p) && (p.dim1[0] == ' ' ==> p.dim1 == " ") && (|p.rest| > 0 ==> p.rest[0] != ' ')
    requires ResolveKind(p.word) == Ok(k) && ParseTerm(p.dim0) == Ok(a) && ParseTerm(p.dim1) == Ok(b)
    requires Split(p.rest).Some?
    ensures Factory(Head(p)) == Fail(UnsupportedTerminal(r)) <==> Factory(p.rest) == Fail(UnsupportedTerminal(r))
  {
    FactoryHead(p, k);
  }

  /** The pattern does not match the terminal text 1. */
  lemma SplitOne()
    ensures Split("1") == None
  {
    assert Scan("1", 0, WordChar) == 1;
  }

  /** A node reports its element unsupported exactly when the rest is neither 1 nor a match. */
  lemma DeclareTerminal(k: Kind, p: Parts, a: Term, b: Term)
    requires ParseTerm(p.dim0) == Ok(a) && ParseTerm(p.dim1) == Ok(b)
    ensures Split(p.rest).None? && p.rest != "1" <==> Declare(k, p) == Fail(UnsupportedTerminal(p.rest))
    ensures p.rest == "1" ==> Declare(k, p) == Ok(Decl(k, a, b, Unit))
  {
    if p.rest == "1" {
      SplitOne();
    } else if Split(p.rest).Some? {
      SearchAtStart(p.rest);
      if Factory(p.rest).Fail? && Factory(p.rest).error.UnsupportedTerminal? {
        var q := Search(p.rest).value;
        DeclareUnsupported(ResolveKind(q.word).value, q, Factory(p.rest).error.rest);
      }
    }
  }

  /** The innermost element must be written 1: exactly the rests that are not 1 and do not match are reported as unsupported. */
  lemma FactoryUnsupported(p: Parts, k: Kind, a: Term, b: Term)
    requires Fits(p) && (p.dim1[0] == ' ' ==> p.dim1 == " ") && (|p.rest| > 0 ==> p.rest[0] != ' ')
    requires ResolveKind(p.word) == Ok(k) && ParseTerm(p.dim0) == Ok(a) && ParseTerm(p.dim1) == Ok(b)
    ensures Split(p.rest).None? && p.rest != "1" <==> Factory(Head(p)) == Fail(UnsupportedTerminal(p.rest))
    ensures p.rest == "1" ==> Factory(Head(p)) == Ok(Decl(k, a, b, Unit))
  {
    FactoryHead(p, k);
    DeclareTerminal(k, p, a, b);
  }
}
