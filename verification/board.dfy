/** The 12x12 board shared by the three generator variants, and the
    acceptance rule that all of them implement, stated once over sets so that
    every variant's validator can be proved against the same definition. */
module QrBoard {

  /** Side of the board (TAMANHO_TABULEIRO / BOARD_SIZE). */
  const Size: int := 12
  /** Number of cells; the search assigns them in row-major order. */
  const Cells: int := 144
  /** Fewest filled cells a row or a column may have. */
  const MinFilled: int := 5

  /** A complete board, flattened row-major: cell (r, c) is at index
      r * 12 + c; true is a filled cell (1), false an empty one (0). */
  type Board = b: seq<bool> | |b| == 144 witness seq(144, k => false)

  /** The board every search starts from: all cells empty. */
  const EmptyBoard: Board := seq(144, k => false)

  function At(b: Board, r: int, c: int): bool
    requires 0 <= r < Size && 0 <= c < Size
  {
    b[r * 12 + c]
  }

  // ---------------------------------------------------------------------
  // Rule 1: corner blocks
  // ---------------------------------------------------------------------

  /** Top-left corners of the four anchor blocks, in the sources' order. */
  const Anchors: seq<(int, int)> := [(0, 0), (0, 10), (10, 0), (10, 10)]

  /** The 2x2 block whose top-left cell is (r, c) has four filled cells. */
  predicate BlockFull(b: Board, r: int, c: int)
    requires 0 <= r < Size - 1 && 0 <= c < Size - 1
  {
    At(b, r, c) && At(b, r, c + 1) && At(b, r + 1, c) && At(b, r + 1, c + 1)
  }

  predicate AnchorFull(b: Board, k: int)
    requires 0 <= k < 4
  {
    BlockFull(b, Anchors[k].0, Anchors[k].1)
  }

  /** Anchor k is the only anchor block that is not full. */
  ghost predicate OnlyOpenAnchor(b: Board, k: int)
    requires 0 <= k < 4
  {
    !AnchorFull(b, k) && forall j :: 0 <= j < 4 && j != k ==> AnchorFull(b, j)
  }

  /** Rule 1: exactly three of the four anchor blocks are full, that is,
      exactly one of them is not. */
  ghost predicate CornersOk(b: Board)
  {
    exists k :: 0 <= k < 4 && OnlyOpenAnchor(b, k)
  }

  /** Number of full anchor blocks among the first n anchors. */
  ghost function FullAnchors(b: Board, n: int): nat
    requires 0 <= n <= 4
  {
    if n == 0 then 0 else FullAnchors(b, n - 1) + (if AnchorFull(b, n - 1) then 1 else 0)
  }

  /** Counting full anchors and comparing with 3 decides rule 1. */
  lemma CornerCountDecides(b: Board)
    ensures FullAnchors(b, 4) <= 4
    ensures FullAnchors(b, 4) == 3 <==> CornersOk(b)
  {
    var a0, a1, a2, a3 := AnchorFull(b, 0), AnchorFull(b, 1), AnchorFull(b, 2), AnchorFull(b, 3);
    assert FullAnchors(b, 1) == (if a0 then 1 else 0);
    assert FullAnchors(b, 2) == FullAnchors(b, 1) + (if a1 then 1 else 0);
    assert FullAnchors(b, 3) == FullAnchors(b, 2) + (if a2 then 1 else 0);
    assert FullAnchors(b, 4) == FullAnchors(b, 3) + (if a3 then 1 else 0);
    if !a0 && a1 && a2 && a3 {
      assert OnlyOpenAnchor(b, 0);
    } else if a0 && !a1 && a2 && a3 {
      assert OnlyOpenAnchor(b, 1);
    } else if a0 && a1 && !a2 && a3 {
      assert OnlyOpenAnchor(b, 2);
    } else if a0 && a1 && a2 && !a3 {
      assert OnlyOpenAnchor(b, 3);
    }
  }

  /** A board whose four anchor blocks are all full is rejected. */
  lemma FourFullCornersRejected(b: Board)
    requires forall k :: 0 <= k < 4 ==> AnchorFull(b, k)
    ensures !CornersOk(b)
  {
  }

  // ---------------------------------------------------------------------
  // Rule 2: filled cells per row and column
  // ---------------------------------------------------------------------

  /** Filled cells of row r among columns 0 .. n-1. */
  ghost function RowPart(b: Board, r: int, n: int): set<int>
    requires 0 <= r < Size && 0 <= n <= Size
  {
    set j | 0 <= j < n && At(b, r, j)
  }

  /** Filled cells of column c among rows 0 .. n-1. */
  ghost function ColPart(b: Board, c: int, n: int): set<int>
    requires 0 <= c < Size && 0 <= n <= Size
  {
    set i | 0 <= i < n && At(b, i, c)
  }

  ghost function RowTotal(b: Board, r: int): nat
    requires 0 <= r < Size
  {
    |RowPart(b, r, Size)|
  }

  ghost function ColTotal(b: Board, c: int): nat
    requires 0 <= c < Size
  {
    |ColPart(b, c, Size)|
  }

  /** Rule 2: every row and every column has at least five filled cells. */
  ghost predicate RowsColsOk(b: Board)
  {
    forall i :: 0 <= i < Size ==> RowTotal(b, i) >= MinFilled && ColTotal(b, i) >= MinFilled
  }

  lemma RowPartStep(b: Board, r: int, n: int)
    requires 0 <= r < Size && 0 <= n < Size
    ensures |RowPart(b, r, n + 1)| == |RowPart(b, r, n)| + (if At(b, r, n) then 1 else 0)
  {
    if At(b, r, n) {
      assert RowPart(b, r, n + 1) == RowPart(b, r, n) + {n};
    } else {
      assert RowPart(b, r, n + 1) == RowPart(b, r, n);
    }
  }

  lemma ColPartStep(b: Board, c: int, n: int)
    requires 0 <= c < Size && 0 <= n < Size
    ensures |ColPart(b, c, n + 1)| == |ColPart(b, c, n)| + (if At(b, n, c) then 1 else 0)
  {
    if At(b, n, c) {
      assert ColPart(b, c, n + 1) == ColPart(b, c, n) + {n};
    } else {
      assert ColPart(b, c, n + 1) == ColPart(b, c, n);
    }
  }

  // ---------------------------------------------------------------------
  // Running counts: filled cells that precede a traversal position
  // ---------------------------------------------------------------------

  /** Filled cells of row r whose row-major index is below n. */
  ghost function RowBefore(b: Board, r: int, n: int): set<int>
    requires 0 <= r < Size
  {
    set j | 0 <= j < Size && r * 12 + j < n && At(b, r, j)
  }

  /** Filled cells of column c whose row-major index is below n. */
  ghost function ColBefore(b: Board, c: int, n: int): set<int>
    requires 0 <= c < Size
  {
    set i | 0 <= i < Size && i * 12 + c < n && At(b, i, c)
  }

  /** What contagem_linhas / contagem_colunas hold when the search is at
      traversal position n: per row and per column, the number of filled
      cells among the cells at positions below n. */
  ghost predicate CountsAt(b: Board, rows: seq<int>, cols: seq<int>, n: int)
  {
    && |rows| == Size && |cols| == Size
    && forall i :: 0 <= i < Size ==> rows[i] == |RowBefore(b, i, n)| && cols[i] == |ColBefore(b, i, n)|
  }

  /** Counts at a position depend only on the cells before it. */
  lemma CountsFrame(b1: Board, b2: Board, n: int)
    requires 0 <= n <= Cells && b1[..n] == b2[..n]
    ensures forall i :: 0 <= i < Size ==> RowBefore(b1, i, n) == RowBefore(b2, i, n)
    ensures forall i :: 0 <= i < Size ==> ColBefore(b1, i, n) == ColBefore(b2, i, n)
  {
    forall i | 0 <= i < Size
      ensures RowBefore(b1, i, n) == RowBefore(b2, i, n)
      ensures ColBefore(b1, i, n) == ColBefore(b2, i, n)
    {
      forall j | 0 <= j < Size && i * 12 + j < n
        ensures At(b1, i, j) == At(b2, i, j)
      {
        assert b1[..n][i * 12 + j] == b2[..n][i * 12 + j];
      }
      forall j | 0 <= j < Size && j * 12 + i < n
        ensures At(b1, j, i) == At(b2, j, i)
      {
        assert b1[..n][j * 12 + i] == b2[..n][j * 12 + i];
      }
    }
  }

  /** Distinct cells have distinct row-major positions. */
  lemma PositionUnique(r1: int, c1: int, r2: int, c2: int)
    requires 0 <= c1 < Size && 0 <= c2 < Size
    requires r1 * 12 + c1 == r2 * 12 + c2
    ensures r1 == r2 && c1 == c2
  {
  }

  lemma RowBeforeStep(b: Board, linha: int, coluna: int, i: int)
    requires 0 <= linha < Size && 0 <= coluna < Size && 0 <= i < Size
    ensures |RowBefore(b, i, linha * 12 + coluna + 1)|
         == |RowBefore(b, i, linha * 12 + coluna)| + (if i == linha && At(b, linha, coluna) then 1 else 0)
  {
    var pos := linha * 12 + coluna;
    forall j | 0 <= j < Size && At(b, i, j) && i * 12 + j == pos
      ensures i == linha && j == coluna
    {
      PositionUnique(i, j, linha, coluna);
    }
    if i == linha && At(b, linha, coluna) {
      assert RowBefore(b, i, pos + 1) == RowBefore(b, i, pos) + {coluna};
    } else {
      assert RowBefore(b, i, pos + 1) == RowBefore(b, i, pos);
    }
  }

  lemma ColBeforeStep(b: Board, linha: int, coluna: int, i: int)
    requires 0 <= linha < Size && 0 <= coluna < Size && 0 <= i < Size
    ensures |ColBefore(b, i, linha * 12 + coluna + 1)|
         == |ColBefore(b, i, linha * 12 + coluna)| + (if i == coluna && At(b, linha, coluna) then 1 else 0)
  {
    var pos := linha * 12 + coluna;
    forall r | 0 <= r < Size && At(b, r, i) && r * 12 + i == pos
      ensures r == linha && i == coluna
    {
      PositionUnique(r, i, linha, coluna);
    }
    if i == coluna && At(b, linha, coluna) {
      assert ColBefore(b, i, pos + 1) == ColBefore(b, i, pos) + {linha};
    } else {
      assert ColBefore(b, i, pos + 1) == ColBefore(b, i, pos);
    }
  }

  /** Committing value v at position linha*12+coluna and adding it to the
      counts of that row and column keeps the counts exact one position on. */
  lemma CountsCommit(b: Board, rows: seq<int>, cols: seq<int>, linha: int, coluna: int, v: bool)
    requires 0 <= linha < Size && 0 <= coluna < Size
    requires CountsAt(b, rows, cols, linha * 12 + coluna)
    ensures CountsAt(b[linha * 12 + coluna := v],
                     rows[linha := rows[linha] + (if v then 1 else 0)],
                     cols[coluna := cols[coluna] + (if v then 1 else 0)],
                     linha * 12 + coluna + 1)
  {
    var pos := linha * 12 + coluna;
    var t := b[pos := v];
    assert t[..pos] == b[..pos];
    CountsFrame(b, t, pos);
    forall i | 0 <= i < Size
      ensures |RowBefore(t, i, pos + 1)| == |RowBefore(b, i, pos)| + (if i == linha && v then 1 else 0)
      ensures |ColBefore(t, i, pos + 1)| == |ColBefore(b, i, pos)| + (if i == coluna && v then 1 else 0)
    {
      RowBeforeStep(t, linha, coluna, i);
      ColBeforeStep(t, linha, coluna, i);
    }
  }

  /** Before the first cell every count is zero. */
  lemma CountsStart(b: Board)
    ensures CountsAt(b, seq(Size, i => 0), seq(Size, i => 0), 0)
  {
    forall i | 0 <= i < Size
      ensures RowBefore(b, i, 0) == {} && ColBefore(b, i, 0) == {}
    {
    }
  }

  /** The C variants' copy loop (copy_board, and the copy into a freshly
      allocated solution): after it, every cell of dest equals src. */
  method CopyBoard(dest: Board, src: Board) returns (copy: Board)
    ensures copy == src
  {
    copy := dest;
    var i := 0;
    while i < Size
      invariant 0 <= i <= Size
      invariant forall k :: 0 <= k < i * 12 ==> copy[k] == src[k]
    {
      var j := 0;
      while j < Size
        invariant 0 <= j <= Size
        invariant forall k :: 0 <= k < i * 12 + j ==> copy[k] == src[k]
      {
        copy := copy[i * 12 + j := src[i * 12 + j]];
        j := j + 1;
      }
      i := i + 1;
    }
  }

  /** Once every cell is committed, the running counts are the totals. */
  lemma CountsComplete(b: Board, i: int)
    requires 0 <= i < Size
    ensures |RowBefore(b, i, Cells)| == RowTotal(b, i)
    ensures |ColBefore(b, i, Cells)| == ColTotal(b, i)
  {
    assert RowBefore(b, i, Cells) == RowPart(b, i, Size);
    assert ColBefore(b, i, Cells) == ColPart(b, i, Size);
  }

  /** Each further column adds at most one filled cell to a row. */
  lemma {:induction false} RowPartGrowth(b: Board, r: int, m: int, n: int)
    requires 0 <= r < Size && 0 <= m <= n <= Size
    ensures |RowPart(b, r, n)| <= |RowPart(b, r, m)| + (n - m)
    decreases n - m
  {
    if m < n {
      RowPartGrowth(b, r, m, n - 1);
      RowPartStep(b, r, n - 1);
    }
  }

  /** Each further row adds at most one filled cell to a column. */
  lemma {:induction false} ColPartGrowth(b: Board, c: int, m: int, n: int)
    requires 0 <= c < Size && 0 <= m <= n <= Size
    ensures |ColPart(b, c, n)| <= |ColPart(b, c, m)| + (n - m)
    decreases n - m
  {
    if m < n {
      ColPartGrowth(b, c, m, n - 1);
      ColPartStep(b, c, n - 1);
    }
  }

  // ---------------------------------------------------------------------
  // Rules 3-5: Type 1 / Type 2 regions and 3x3 super-blocks
  // ---------------------------------------------------------------------

  /** Type1 is [1,0;1,1] and Type2 is [1,1;0,1]. */
  datatype Pattern = Type1 | Type2

  /** Top-left corner of a 2x2 block. */
  type Coord = (int, int)

  predicate InBlockRange(m: Coord)
  {
    0 <= m.0 < Size - 1 && 0 <= m.1 < Size - 1
  }

  predicate Matches(b: Board, p: Pattern, r: int, c: int)
    requires 0 <= r < Size - 1 && 0 <= c < Size - 1
  {
    match p
    case Type1 => At(b, r, c) && !At(b, r, c + 1) && At(b, r + 1, c) && At(b, r + 1, c + 1)
    case Type2 => At(b, r, c) && At(b, r, c + 1) && !At(b, r + 1, c) && At(b, r + 1, c + 1)
  }

  /** Every block of the board that matches the pattern. */
  ghost function MatchSet(b: Board, p: Pattern): set<Coord>
  {
    set r, c | 0 <= r < Size - 1 && 0 <= c < Size - 1 && Matches(b, p, r, c) :: (r, c)
  }

  /** The 3x3 super-block a block's top-left corner falls in. */
  function SuperBlock(m: Coord): Coord
  {
    (m.0 / 3, m.1 / 3)
  }

  ghost function SuperBlocks(s: set<Coord>): set<Coord>
  {
    set m | m in s :: SuperBlock(m)
  }

  /** Rules 3-5 for one pattern: at least two matching blocks, spread over
      at least two distinct super-blocks. */
  ghost predicate PatternOk(b: Board, p: Pattern)
  {
    |MatchSet(b, p)| >= 2 && |SuperBlocks(MatchSet(b, p))| >= 2
  }

  /** The acceptance rule of every variant. */
  ghost predicate Valid(b: Board)
  {
    && CornersOk(b)
    && RowsColsOk(b)
    && PatternOk(b, Type1)
    && PatternOk(b, Type2)
  }

  // ---------------------------------------------------------------------
  // Region lists as the scans produce them
  // ---------------------------------------------------------------------

  /** Row-major rank of a block position. */
  function Key(m: Coord): int
  {
    m.0 * 12 + m.1
  }

  /** Strictly increasing in row-major order (so also free of repeats). */
  predicate RowMajor(s: seq<Coord>)
  {
    forall i, j :: 0 <= i < j < |s| ==> Key(s[i]) < Key(s[j])
  }

  /** s lists exactly the blocks matching p, in row-major order. */
  ghost predicate IsScanOf(b: Board, p: Pattern, s: seq<Coord>)
  {
    && (forall m :: m in s <==> InBlockRange(m) && Matches(b, p, m.0, m.1))
    && RowMajor(s)
  }

  ghost function Elems<T>(s: seq<T>): set<T>
  {
    set x | x in s
  }

  predicate NoRepeats<T(==)>(s: seq<T>)
  {
    forall i, j :: 0 <= i < j < |s| ==> s[i] != s[j]
  }

  /** A sequence without repeats has as many elements as its set. */
  lemma {:induction false} NoRepeatsSize<T>(s: seq<T>)
    requires NoRepeats(s)
    ensures |Elems(s)| == |s|
  {
    if |s| > 0 {
      var t := s[..|s| - 1];
      assert NoRepeats(t);
      NoRepeatsSize(t);
      assert Elems(s) == Elems(t) + {s[|s| - 1]};
      assert s[|s| - 1] !in Elems(t);
    } else {
      assert Elems(s) == {};
    }
  }

  /** A scan's length is the number of matches, and its super-blocks are the
      super-blocks of the matches. */
  lemma ScanMeasures(b: Board, p: Pattern, s: seq<Coord>)
    requires IsScanOf(b, p, s)
    ensures |s| == |MatchSet(b, p)|
    ensures (set m | m in s :: SuperBlock(m)) == SuperBlocks(MatchSet(b, p))
  {
    assert Elems(s) == MatchSet(b, p);
    assert NoRepeats(s);
    NoRepeatsSize(s);
  }

  /** A set has at least two elements exactly when it holds two different ones. */
  lemma TwoElements<T>(s: set<T>)
    ensures |s| >= 2 <==> exists x, y :: x in s && y in s && x != y
  {
    if |s| >= 2 {
      var x :| x in s;
      assert |s - {x}| >= 1;
      var y :| y in s - {x};
      assert x in s && y in s && x != y;
    }
    if exists x, y :: x in s && y in s && x != y {
      var x, y :| x in s && y in s && x != y;
      assert s == (s - {x, y}) + {x, y};
      assert |{x, y}| == 2;
    }
  }
}
