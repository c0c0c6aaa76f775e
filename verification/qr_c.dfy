/** The unpruned variant (qrcode/qr.c): the partial check always passes,
    the full validator recounts rows and columns from the board, and the
    search never clears a cell when it backtracks. */
module QrC {
  import opened QrBoard
  import opened QrSearch
  import opened RegionScan

  /** MAX_SOLUTIONS of this variant: stop after the first board found. */
  const MaxSolutions: nat := 1

  /** is_valid_partial: no pruning at all. */
  predicate IsValidPartial(board: Board, row: int, col: int)
  {
    true
  }

  /** The corner part of is_valid_full: for each anchor, a nested loop over
      its 2x2 block that stops at the first empty cell; the anchor counts
      when the block is in bounds and no empty cell was met. */
  method CountFilledCorners(board: Board) returns (cornerBlocksFilled: int)
    ensures cornerBlocksFilled == FullAnchors(board, 4)
    ensures cornerBlocksFilled == 3 <==> CornersOk(board)
  {
    cornerBlocksFilled := 0;
    var k := 0;
    while k < 4
      invariant 0 <= k <= 4
      invariant cornerBlocksFilled == FullAnchors(board, k)
    {
      var rStart, cStart := Anchors[k].0, Anchors[k].1;
      var isFilled := true;
      if rStart + 1 < Size && cStart + 1 < Size {
        var i := rStart;
        while i < rStart + 2
          invariant rStart <= i <= rStart + 2
          invariant isFilled
          invariant forall ii, jj :: rStart <= ii < i && cStart <= jj < cStart + 2 ==> At(board, ii, jj)
        {
          var j := cStart;
          while j < cStart + 2
            invariant cStart <= j <= cStart + 2
            invariant isFilled
            invariant forall jj :: cStart <= jj < j ==> At(board, i, jj)
          {
            if !At(board, i, j) {
              isFilled := false;
              break;
            }
            j := j + 1;
          }
          if !isFilled {
            break;
          }
          i := i + 1;
        }
      } else {
        isFilled := false;
      }
      assert isFilled <==> AnchorFull(board, k);
      if isFilled {
        cornerBlocksFilled := cornerBlocksFilled + 1;
      }
      k := k + 1;
    }
    CornerCountDecides(board);
  }

  /** The row/column part of is_valid_full: for each i, row i and column i
      are summed cell by cell; any sum below 5 rejects. */
  method RowsAndColumnsFilled(board: Board) returns (ok: bool)
    ensures ok <==> RowsColsOk(board)
  {
    var i := 0;
    while i < Size
      invariant 0 <= i <= Size
      invariant forall k :: 0 <= k < i ==> RowTotal(board, k) >= MinFilled && ColTotal(board, k) >= MinFilled
    {
      var rowSum := 0;
      var colSum := 0;
      var j := 0;
      while j < Size
        invariant 0 <= j <= Size
        invariant rowSum == |RowPart(board, i, j)| && colSum == |ColPart(board, i, j)|
      {
        RowPartStep(board, i, j);
        ColPartStep(board, i, j);
        rowSum := rowSum + (if At(board, i, j) then 1 else 0);
        colSum := colSum + (if At(board, j, i) then 1 else 0);
        j := j + 1;
      }
      if rowSum < MinFilled || colSum < MinFilled {
        assert !(RowTotal(board, i) >= MinFilled && ColTotal(board, i) >= MinFilled);
        return false;
      }
      i := i + 1;
    }
    return true;
  }

  /** is_valid_full: recomputes every check from the board, so it decides
      Valid exactly. */
  method IsValidFull(board: Board) returns (ok: bool)
    ensures ok <==> Valid(board)
  {
    var cornerBlocksFilled := CountFilledCorners(board);
    if cornerBlocksFilled != 3 {
      return false;
    }
    var sumsOk := RowsAndColumnsFilled(board);
    if !sumsOk {
      return false;
    }
    var type1Regions := ScanPattern(board, Type1);
    ScanMeasures(board, Type1, type1Regions);
    if |type1Regions| < 2 {
      return false;
    }
    var type2Regions := ScanPattern(board, Type2);
    ScanMeasures(board, Type2, type2Regions);
    if |type2Regions| < 2 {
      return false;
    }
    var subBoardsType1 := CountDistinctBlocks(type1Regions, 100);
    if subBoardsType1 < 2 {
      return false;
    }
    var subBoardsType2 := CountDistinctBlocks(type2Regions, 100);
    if subBoardsType2 < 2 {
      return false;
    }
    return true;
  }

  /** The leaf of solve: with every cell assigned, a valid board is copied
      into the next free solution slot. */
  method SaveIfValid(board: Board, solutions: seq<Board>, cap: nat) returns (solutions': seq<Board>)
    requires |solutions| < cap
    ensures solutions' == solutions + Take(Completions(board), cap - |solutions|)
  {
    var ok := IsValidFull(board);
    if ok {
      var foundBoard := CopyBoard(EmptyBoard, board);
      solutions' := solutions + [foundBoard];
    } else {
      solutions' := solutions;
    }
  }

  /** solve(row, col). Cells from (row, col) on may hold stale values from
      earlier branches: the search writes each cell before reading it, so
      only the prefix matters. The result keeps the prefix and appends the
      first valid completions of it, in search order, up to the cap; the
      cap is checked on entry and again between the 0 and 1 branches. */
  method Solve(board: Board, solutions: seq<Board>, row: int, col: int, cap: nat)
    returns (board': Board, solutions': seq<Board>)
    requires 0 <= row <= Size && 0 <= col < Size && (row == Size ==> col == 0)
    ensures board'[..row * 12 + col] == board[..row * 12 + col]
    ensures solutions' == solutions + Take(Completions(board[..row * 12 + col]), cap - |solutions|)
    decreases Cells - (row * 12 + col), 1
  {
    var pos := row * 12 + col;
    ghost var p := board[..pos];
    board', solutions' := board, solutions;
    if |solutions| >= cap {
      assert solutions' == solutions + [];
    } else if row == Size {
      assert p == board;
      solutions' := SaveIfValid(board, solutions, cap);
    } else {
      CompletionsSplit(p);
      board', solutions' := TryValue(board', solutions', row, col, false, cap);
      ghost var afterZero := solutions';
      assert board'[..pos] == p;
      if |solutions'| < cap {
        board', solutions' := TryValue(board', solutions', row, col, true, cap);
      } else {
        assert solutions' == afterZero + [];
      }
      TakeSequential(solutions, Completions(p + [false]), Completions(p + [true]), cap, afterZero, solutions');
    }
  }

  /** One branch of solve: write v into (row, col) and, since the partial
      check always passes, recurse into the row-major successor. The cell is
      not cleared afterwards; only the prefix before (row, col) is kept. */
  method TryValue(board: Board, solutions: seq<Board>, row: int, col: int, v: bool, cap: nat)
    returns (board': Board, solutions': seq<Board>)
    requires 0 <= row < Size && 0 <= col < Size
    ensures board'[..row * 12 + col] == board[..row * 12 + col]
    ensures solutions' == solutions + Take(Completions(board[..row * 12 + col] + [v]), cap - |solutions|)
    decreases Cells - (row * 12 + col), 0
  {
    var pos := row * 12 + col;
    var next := NextCell(row, col);
    board' := board[pos := v];
    assert board'[..pos + 1] == board[..pos] + [v];
    solutions' := solutions;
    if IsValidPartial(board', row, col) {
      board', solutions' := Solve(board', solutions', next.0, next.1, cap);
    }
    assert board'[..pos] == board'[..pos + 1][..pos];
  }

  /** generate_qr_codes: an all-zero board, then solve(0, 0). The result is
      the first MAX_SOLUTIONS valid boards in search order. */
  method GenerateQrCodes() returns (solutions: seq<Board>)
    ensures solutions == FirstValid(MaxSolutions)
    ensures |solutions| <= MaxSolutions
    ensures forall s :: s in solutions ==> Valid(s)
  {
    var finalBoard;
    finalBoard, solutions := Solve(EmptyBoard, [], 0, 0, MaxSolutions);
    assert EmptyBoard[..0] == [];
    AppendedValid([], [], MaxSolutions, solutions);
  }
}
