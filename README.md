# lil.py layout declarations in Dafny

This project models the layout library of `lil.py`. A layout declaration is written as
`KIND(dim0, dim1, rest)`. It names a dim0 x dim1 grid of elements placed in one of four
orders: row-major, column-major, Z-Morton or Hilbert. Each element is either the terminal
size `1` or another declaration written inside `rest`, so the declaration is a tree of
tiles. The library parses such a text into that tree. It then computes sizes and logical
extents over the tree, and translates a logical index (i, j) into a physical index. All
of this arithmetic is on 32-bit z3 bit-vectors.

Files and modules:

- `words.dfy` (`Words`) is the 32-bit carrier: `Word` is an integer in [0, 2^32). It
  gives the z3 meaning of each operator in `lil.py`:
  - `+` and `*` wrap around modulo 2^32.
  - `/` is signed division (bvsdiv), and division by zero is defined as z3 defines it.
  - `%` is signed modulus (bvsmod).
  - `>>` is an arithmetic shift.
  - `<<` gives 0 for shift amounts of 32 or more.
  - `&`, `|`, `^` and `~` are defined bit by bit.
- `interleave.dfy` (`Interleave`) models `interleave_bits`, with its `_shiftmask` and
  `_spreadbits` steps. The Morton code and its inverse serve as the reference definitions.
- `hilbert.dfy` (`Hilbert`) models the Hilbert fragment, in two forms:
  - A method with the 15-iteration loop that reassigns `v0` and `v1`.
  - The function `HilbertOffset` that the method is proved equal to.
- `layout.dfy` (`Layouts`) holds the declaration tree (`Decl`) and the functions `size`,
  `elem_size`, `terminal`, `ldim0/1`, `lsize0/1`, the four `fragment`s and `interpret`.
  It also has exact-integer reference definitions, `Extent0/1` and `Cells`.
- `tiling.dfy` (`Tiling`) covers trees built only from ROWMAJ and COLMAJ nodes with
  fewer than 2^31 cells. For these it proves that `interpret` is a bijection between the
  logical rectangle and [0, size). The inverse is given explicitly (`Locate`).
- `declarations.dfy` (`Declarations`) covers parsing:
  - A deterministic matcher for the declaration pattern (`Split`), proved equal to the
    greedy, backtracking reading of the regular expression.
  - The leftmost `search`.
  - Kind resolution by prefix.
  - The dimension parser.
  - `LayoutDeclFactory` and the node constructor (`Factory`, `Declare`).
  - A printer (`Print`), which serves as the round-trip partner of the factory.
- `scenarios.dfy` (`Scenarios`) works through concrete declarations, such as the usage
  example `Z(4,4,1)`.

Dimensions and indices that are symbolic in the source are modelled by their values: a
`Term` is a literal or a variable, and `Env` gives every variable a 32-bit value. Every
lemma quantifies over all environments, so it speaks about every value a symbolic term
can take. `z3.simplify` does not change a term's value, so the model leaves it out.

A node is never updated after `__init__` sets its fields, so it is modelled as a
datatype value. `Declare` is the constructor, and it returns either a node or the
error the constructor would raise.

Points where the code's behaviour may be unexpected; the model follows the code:

- In each Hilbert round, the `v0` update reads the `v1` computed in the same round.
- Kind names are matched case-sensitively, through `startswith`.
- `interleave_bits` applies only two spreading steps. It is therefore the Morton code
  only for coordinates below 16, and `Interleave.SpreadCollision` shows that it is not
  injective on 16-bit inputs.
- `Z(4,4,1)` sends (3, 7) to 31 (`Scenarios.ZExample`).
- Division by zero in `interpret` does not fail. It yields z3's defined value.
- The innermost element must be the text `1` exactly.

## Model

| member | source | states |
|---|---|---|
| Words.SDivModSmall | lil.py:97-101 | On non-negative signed operands, z3's `/` and `%` are integer quotient and remainder |
| Words.SDivOne | lil.py:97-98 | Dividing by the terminal element size 1 returns the index unchanged, for every word, including ones with the sign bit set |
| Interleave.ShiftMask | lil.py:145-146 | definition: `v & ((n << s) \| n)` on 32-bit words |
| Interleave.SpreadBits | lil.py:147-149 | definition: the low 16 bits of x, masked by `0x33333333` after a shift by 2 and then by `0x55555555` after a shift by 1 |
| Interleave.InterleaveBits | lil.py:142-150 | definition: `_spreadbits(j) \| (_spreadbits(i) << 1)` |
| Interleave.InterleaveSplit | lil.py:140-150 | For every input, the even bits of `interleave_bits(i, j)` are `_spreadbits(j)` and the odd bits are `_spreadbits(i) << 1` |
| Interleave.SpreadBitsBit | lil.py:145-149 | Bit k of `_spreadbits(x)` is set only at even k below 32, and only when one of the two source bits of x that the two mask steps move there is set |
| Interleave.InterleaveMorton | lil.py:140-150 | For i, j < 16 the result is the Morton code of width 4 (bit k of j at 2k, bit k of i at 2k+1), which is below 256 |
| Interleave.InterleaveRoundTrip | lil.py:140-150 | For i, j < 16, de-interleaving the result gives back (i, j) |
| Interleave.InterleaveInjective | lil.py:140-150 | Distinct pairs in [0,16)^2 have distinct interleavings |
| Interleave.CompactMorton | lil.py:140-150 | Gathering the even or the odd bits of a width-n Morton code recovers each coordinate below 2^n |
| Interleave.SpreadCollision | lil.py:145-150 | The two-step spread maps 4 and 16 to the same word, so `interleave_bits(0, 4) == interleave_bits(0, 16)` |
| Hilbert.Low16Not | lil.py:131-132 | definition: `~x & 0x0000FFFF` |
| Hilbert.Step | lil.py:136-137 | definition: one loop round; `v1` is the shifted mix of the old `v1`, `heven`, the old `v0`, `notj` and `temp`, and `v0` is then computed from the old `v0` and the new `v1`, both with an arithmetic shift by 1 |
| Hilbert.Rounds | lil.py:134-137 | definition: the state after n rounds, starting from `v0 = v1 = 0` |
| Hilbert.HOdd | lil.py:138 | definition: `(~v0 & (v1 ^ i)) \| (v0 & (v1 ^ notj))` |
| Hilbert.HilbertOffset | lil.py:129-139 | definition: `interleave_bits(hodd, i ^ j)` after 15 rounds |
| Hilbert.HilbertFragment | lil.py:128-139 | The loop for k in 1..15, which updates v1 first and then v0 from the new v1, computes `HilbertOffset`, and the result's even bits are the spread of `i ^ j` |
| Hilbert.RoundsBound | lil.py:134-137 | After every round, for every input, both state words stay below 2^15 |
| Hilbert.HOddBound | lil.py:138 | For i < 2^16, the word `hodd` is below 2^16 |
| Hilbert.HilbertBits | lil.py:129-139 | The even bits of the Hilbert index are the spread of `i ^ j` and the odd bits are the spread of `hodd`, shifted by one |
| Layouts.Size | lil.py:58-63 | definition: `dim0*dim1`, times the element's size at a nested node, with 32-bit wrapping multiplication |
| Layouts.ElemSize | lil.py:65-67 | definition: 1 at a terminal node, otherwise the element's size |
| Layouts.IsTerminal | lil.py:69-71 | definition: the element is the terminal 1, not a nested declaration |
| Layouts.LDim0 | lil.py:73-78 | definition: `dim0`, times the element's `ldim0` at a nested node, wrapping |
| Layouts.LDim1 | lil.py:80-85 | definition: `dim1`, times the element's `ldim1` at a nested node, wrapping |
| Layouts.LSize0 | lil.py:87-89 | definition: 1 at a terminal node, otherwise the element's `ldim0` |
| Layouts.LSize1 | lil.py:91-93 | definition: 1 at a terminal node, otherwise the element's `ldim1` |
| Layouts.Fragment | lil.py:111-139 | definition: by kind, `i*dim1 + j`, `i + dim0*j`, `interleave_bits(i, j)` or the Hilbert offset, in 32-bit arithmetic |
| Layouts.Interpret | lil.py:95-105 | definition: the fragment of `(i / lsize0, j / lsize1)` with signed division; at a nested node it is scaled by `elem_size` and the element's interpretation of `(i % lsize0, j % lsize1)` is added, with signed modulus and wrapping |
| Layouts.SizeExact | lil.py:58-63 | `size` is the product of every dim0 and dim1 in the tree, modulo 2^32 |
| Layouts.LDimExact | lil.py:73-85 | `ldim0` and `ldim1` are the products of dim0 and of dim1 down the chain, modulo 2^32 |
| Layouts.TileDecomposition | lil.py:58-93 | `size == dim0*dim1*elem_size` and `ldim == dim*lsize`, with `elem_size`, `lsize0` and `lsize1` equal to 1 at a terminal node |
| Layouts.TwoLevelSize | lil.py:58-67 | A two-level layout holds the product of its four dims, modulo 2^32 |
| Layouts.CellsExtents | lil.py:58-85 | The exact cell count of a tree is the product of its two exact logical extents |
| Layouts.InterpretTerminal | lil.py:95-105 | At a terminal node, `interpret(i, j)` is `fragment(i, j)` for every i and j |
| Layouts.AffineFragment | lil.py:111-119 | Inside the grid and without overflow, the ROWMAJ and COLMAJ fragments are the exact positions `i*dim1 + j` and `i + dim0*j`, both below `dim0*dim1` |
| Layouts.RowMajSingle | lil.py:111-114 | For i < d0, j < d1 and `d0*d1 <= 2^32`, `ROWMAJ(d0, d1, 1)` places (i, j) at the exact position `i*d1 + j` |
| Layouts.ColMajSingle | lil.py:116-119 | For i < d0, j < d1 and `d0*d1 <= 2^32`, `COLMAJ(d0, d1, 1)` places (i, j) at the exact position `i + d0*j` |
| Layouts.ZMortonSingle | lil.py:121-124 | `ZMORTON(d0, d1, 1)` places (i, j) in [0,16)^2 at their Morton code |
| Tiling.TileRoundTrip | lil.py:111-119 | Within the grid, the row-major and column-major tile positions are inverted by quotient and remainder |
| Tiling.TileCover | lil.py:111-119 | Every position below `dim0*dim1` is the position of exactly the tile that quotient and remainder give |
| Tiling.NestedStep | lil.py:95-105 | At a nested node of a ROWMAJ/COLMAJ tree with positive dims and fewer than 2^31 cells, for (i, j) inside the rectangle and provided the element's own translation lies below the element's cell count: the signed `/` and `%` by `lsize` are exact, the tile lies in the grid, and `interpret` is the exact tile index times the element's cell count, plus the element's own translation of `(i % ldim0', j % ldim1')` |
| Tiling.InterpretInRange | lil.py:95-105 | For ROWMAJ/COLMAJ trees whose exact cell count `Cells` is below 2^31, every index inside the exact extents [0, `Extent0`) x [0, `Extent1`) lands in [0, `Cells`), and `Locate` recovers it; such a tree also has positive dims throughout |
| Tiling.LocateInRange | lil.py:95-105 | For such trees with positive dims, every physical index in [0, `Cells`) is the translation of the index `Locate` gives, which lies inside [0, `Extent0`) x [0, `Extent1`) |
| Tiling.InterpretInjective | lil.py:95-105 | For such trees, distinct indices inside [0, `Extent0`) x [0, `Extent1`) get distinct physical indices |
| Tiling.NestedSizes | lil.py:58-85 | Below 2^31 cells, and with each extent at most the cell count, `ldim0`, `ldim1` and `size` equal the exact `Extent0`, `Extent1` and `Cells`, so the lemmas above speak of the library's own sizes |
| Declarations.Find | lil.py:4 | definition: the positions of the groups of a match at the start of a text, as the backtracking regular-expression matcher finds them |
| Declarations.Split | lil.py:4 | definition: the groups `layout`, `dim0`, `dim1` and `rest` (and the skipped blanks) of the match at the start of a text, or none |
| Declarations.ScanRun | lil.py:4 | A greedy character-class run covers only characters of the class and stops at the first character outside it |
| Declarations.LastInFacts | lil.py:4 | The last `)` found before the line end is a `)`, and no later one exists up to the line end |
| Declarations.SplitShaped | lil.py:4 | A match at the start of s succeeds with groups p exactly when s starts with `word(dim0,pad dim1,pad rest)` under the group classes, with the greedy choices: dim1 starts after all blanks, or is one blank when only blanks precede its comma; rest has no leading blank; and no `)` follows rest on its line |
| Declarations.Search | lil.py:155 | definition: the groups of the match at the leftmost position where the pattern matches, or none |
| Declarations.Leftmost | lil.py:155 | `search` reports a position where the pattern matches |
| Declarations.LeftmostFirst | lil.py:155 | No earlier position matches, and no position matches when `search` finds nothing |
| Declarations.SearchAtStart | lil.py:51-52 | When the pattern matches at the start of a text, `search` finds that match |
| Declarations.KindName | lil.py:111-128 | definition: the `name` of each layout class: `ROWMAJ`, `COLMAJ`, `ZMORTON`, `HILBERT` |
| Declarations.ResolveKind | lil.py:156-166 | definition: the first kind, in the order ROWMAJ, COLMAJ, ZMORTON, HILBERT, whose name starts with the word, or the unknown-layout error |
| Declarations.ResolveKindPrefix | lil.py:156-164 | A non-empty word resolves to kind k exactly when it is a prefix, case-sensitive, of k's name |
| Declarations.ResolveKindUnknown | lil.py:164-166 | The unknown-layout error is raised exactly when the word is a prefix of no kind name |
| Declarations.ResolveKindName | lil.py:156-163 | Each kind's name and each non-empty abbreviation of it, such as `Z` or `R`, resolves to that kind |
| Declarations.ParseTerm | lil.py:28-39 | definition: a dimension text, with trailing blanks dropped, read as a decimal literal reduced to 32 bits or as a variable, or the `BadTerm` error |
| Declarations.TrimEnd | lil.py:29-39 | Dropping trailing blanks gives a prefix with no trailing blank, and everything dropped is a blank |
| Declarations.NumeralRoundTrip | lil.py:18-24 | The decimal text of a 32-bit value reads back as that value |
| Declarations.TermRoundTrip | lil.py:10-24 | Parsing the text of a literal or a proper identifier gives that term back |
| Declarations.ParseTermWellNamed | lil.py:29-39 | Every parsed variable is a proper identifier |
| Declarations.Factory | lil.py:153-167 | definition: the leftmost match, its word resolved to a kind, then the node built from its groups; no match, an unknown kind or a failing node gives an error |
| Declarations.Declare | lil.py:46-56 | definition: the node of a kind from the groups of a match: both dimensions parsed, then a nested declaration when the rest matches at its start, the terminal node when the rest is `1`, and otherwise the unsupported-element error |
| Declarations.PrintRoundTrip | lil.py:46-56 | Reading the canonical text of a declaration gives that declaration back |
| Declarations.FactoryRender | lil.py:153-166 | Text whose kind is written as any word reads back with the kind that word abbreviates, or fails with the unknown-layout error naming that word |
| Declarations.AbbreviationRoundTrip | lil.py:153-166 | A declaration written with any non-empty abbreviation of its kind reads back unchanged |
| Declarations.FactoryWellNamed | lil.py:46-52 | Every declaration read from any text has proper identifiers as its variables |
| Declarations.FactoryNormalizes | lil.py:153-166 | A declaration read from any text is read again, unchanged, from its canonical text |
| Declarations.FactoryNoMatch | lil.py:154-155 | Reading fails for want of a match exactly when the pattern matches at no position of the text |
| Declarations.DeclareUnsupported | lil.py:50-56 | An unsupported element reported while a node is read is a contiguous piece of that node's rest, and it is an innermost text: neither `1` nor a match of the pattern |
| Declarations.DeclareTerminal | lil.py:50-56 | A node reports its element unsupported exactly when its rest neither matches nor is `1`, and a rest of `1` gives a terminal node |
| Declarations.FactoryUnsupported | lil.py:50-56 | For the text of one node, its rest is reported unsupported exactly when it neither matches nor is `1`, and a rest of `1` gives a terminal node |
| Declarations.FactoryInner | lil.py:50-52 | For the text of one node whose rest matches, an unsupported element is reported exactly when the nested declaration reports that same element |
| Scenarios.ZExample | lil.py:173-181 | `Z(4,4,1)` is a 4 x 4 ZMORTON node, and it sends (3, 7) to 31 |
| Scenarios.RowMajExample | lil.py:111-114 | `ROWMAJ(8, 4, 1)`, with blanks after the commas, is an 8 x 4 row-major node placing (i, j) at `4*i + j` |
| Scenarios.UnknownExample | lil.py:164-166 | `BOGUS(4,4,1)` fails with the unknown-layout error |
| Scenarios.TerminalExample | lil.py:50-56 | `ROWMAJ(4,4,2)` fails because its innermost element is not 1 |
| Scenarios.NestedTerminalExample | lil.py:50-56 | `R(4,4,C(2,2,2))` fails because its innermost element, `2`, is not 1 |
| Scenarios.NestedExample | lil.py:50-52 | `HILBERT(n,n,COLMAJ(2,2,1))` is an n x n Hilbert grid of 2 x 2 column-major tiles |

## Left out

- `main` and its printing (lil.py:169-195) are command-line plumbing. The usage example it runs at (3, 7) appears as `Scenarios.ZExample`.
- Symbolic z3 terms are not built. Every value is computed under an environment that assigns each variable a 32-bit value.
- `z3.simplify` is not modelled, because it returns a term with the same value.
- `Declarations.ParseTerm`: `Z3Rewriter` and `parse_expr` (lil.py:6-39) evaluate any Python expression, but the model parses only what a dimension holds in a declaration:
  - It accepts a decimal literal (reduced to 32 bits, as `BitVecVal(n, 32)` is) or an identifier, with trailing blanks allowed.
  - Everything else is rejected with `BadTerm`. That includes forms that `parse_expr` evaluates, among them: a literal with a leading zero (an octal literal), a long-suffixed literal, a hexadecimal literal such as `0x10`, any arithmetic expression, and a dimension followed by a tab or another non-space blank, such as `ROWMAJ(4\t,4,1)`. A dimension with leading blanks, such as the ` 4` of `R( 4,4,1)`, is rejected by both: `ast.parse` raises an indentation error on it.
- `Declarations.Declare`: `__init__` parses the dimension groups in dictionary order, and the model parses dim0 before dim1. This choice only affects which `BadTerm` error is reported when both dimensions are malformed.
- `\w` is read as the ASCII class `[A-Za-z0-9_]`. The Unicode and locale variants of Python's `re` are not modelled.
- The failed `assert` in `__init__` and the exception in `LayoutDeclFactory` are modelled as `Fail` values of a `Result`. A missing match, which the source hits as an attribute error on `None`, becomes `Fail(NoMatch)`.
- No ordering or adjacency property of the Hilbert curve is claimed, and no Morton bijection beyond 4-bit coordinates. The code does not give either: the two-step spread collides on 16-bit inputs (`Interleave.SpreadCollision`).
- The range and bijection lemmas of `Tiling` cover only trees whose nodes are ROWMAJ or COLMAJ and whose cell count is below 2^31. For ZMORTON and HILBERT nodes, only the single-level facts and the bit-level laws are proved. Above 2^31 cells the signed quotient no longer agrees with integer division.
