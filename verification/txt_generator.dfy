/** The pruned variant (qrcode/qr_txt_generator.c): running per-row and
    per-column counts of filled cells, a prune that abandons a branch when a
    row or column can no longer reach five filled cells, and a final
    validator that reads those counts instead of recounting. */
module QrTxtGenerator {
  import opened QrBoard
  import opened QrSearch
  import opened RegionScan

  /** MAX_SOLUCOES of this variant. */
  const MaxSolucoes: nat := 10

  /** The program's global search state, threaded explicitly: the board under
      construction, contagem_linhas, contagem_colunas and the stored
      solutions. */
  datatype State = State(board: Board, rowCounts: seq<int>, colCounts: seq<int>, solutions: seq<Board>)

  /** verificar_bloco_2x2_cheio: the 2x2 block at (r, c) lies inside the
      board and all four of its cells are filled. */
  function VerificarBloco2x2Cheio(b: Board, r: int, c: int): (full: bool)
    requires 0 <= r && 0 <= c
    ensures full <==> r + 1 < Size && c + 1 < Size
                      && forall i, j :: r <= i <= r + 1 && c <= j <= c + 1 ==> At(b, i, j)
  {
    if r + 1 >= Size || c + 1 >= Size then false
    else At(b, r, c) && At(b, r, c + 1) && At(b, r + 1, c) && At(b, r + 1, c + 1)
  }

  /** The corner loop of eh_valido_completo: counts the full anchor blocks. */
  method ContarCantosCheios(b: Board) returns (cantos: int)
    ensures cantos == FullAnchors(b, 4)
    ensures cantos == 3 <==> CornersOk(b)
  {
    cantos := 0;
    var k := 0;
    while k < 4
      invariant 0 <= k <= 4
      invariant cantos == FullAnchors(b, k)
    {
      if VerificarBloco2x2Cheio(b, Anchors[k].0, Anchors[k].1) {
        cantos := cantos + 1;
      }
      k := k + 1;
    }
    CornerCountDecides(b);
  }

  /** eh_valido_parcial: after committing cell (linha, coluna), can its row
      and its column still reach five filled cells if every later cell of
      them is filled? */
  predicate EhValidoParcial(rowCounts: seq<int>, colCounts: seq<int>, linha: int, coluna: int)
    requires |rowCounts| == Size && |colCounts| == Size
    requires 0 <= linha < Size && 0 <= coluna < Size
  {
    if rowCounts[linha] + (Size - 1 - coluna) < MinFilled then false
    else if colCounts[coluna] + (Size - 1 - linha) < MinFilled then false
    else true
  }

  /** The prune is sound: on any board meeting rule 2, evaluated with that
      board's own counts just after cell (linha, coluna), it never fails. */
  lemma PruneSound(b: Board, rows: seq<int>, cols: seq<int>, linha: int, coluna: int)
    requires 0 <= linha < Size && 0 <= coluna < Size
    requires RowsColsOk(b)
    requires CountsAt(b, rows, cols, linha * 12 + coluna + 1)
    ensures EhValidoParcial(rows, cols, linha, coluna)
  {
    var pos := linha * 12 + coluna;
    assert RowTotal(b, linha) >= MinFilled && ColTotal(b, coluna) >= MinFilled;
    assert rows[linha] == |RowBefore(b, linha, pos + 1)| && cols[coluna] == |ColBefore(b, coluna, pos + 1)|;
    assert RowBefore(b, linha, pos + 1) == RowPart(b, linha, coluna + 1);
    assert ColBefore(b, coluna, pos + 1) == ColPart(b, coluna, linha + 1);
    RowPartGrowth(b, linha, coluna + 1, Size);
    ColPartGrowth(b, coluna, linha + 1, Size);
  }

  /** A branch the prune abandons holds no valid completion. */
  lemma PrunedBranchEmpty(t: Board, rows: seq<int>, cols: seq<int>, linha: int, coluna: int)
    requires 0 <= linha < Size && 0 <= coluna < Size
    requires CountsAt(t, rows, cols, linha * 12 + coluna + 1)
    requires !EhValidoParcial(rows, cols, linha, coluna)
    ensures Completions(t[..linha * 12 + coluna + 1]) == []
  {
    var n := linha * 12 + coluna + 1;
    var cs := Completions(t[..n]);
    if cs != [] {
      CompletionsSound(t[..n]);
      var e := cs[0];
      assert e in cs;
      assert e[..n] == t[..n];
      CountsFrame(e, t, n);
      PruneSound(e, rows, cols, linha, coluna);
    }
  }

  /** eh_valido_completo. Rule 2 is checked on the running counts passed in,
      not on the board; given exact counts it decides Valid. */
  method EhValidoCompleto(b: Board, rowCounts: seq<int>, colCounts: seq<int>) returns (ok: bool)
    requires |rowCounts| == Size && |colCounts| == Size
    ensures ok <==> && CornersOk(b)
                    && (forall i :: 0 <= i < Size ==> rowCounts[i] >= MinFilled && colCounts[i] >= MinFilled)
                    && PatternOk(b, Type1) && PatternOk(b, Type2)
    ensures (forall i :: 0 <= i < Size ==> rowCounts[i] == RowTotal(b, i) && colCounts[i] == ColTotal(b, i))
            ==> (ok <==> Valid(b))
  {
    var cantos := ContarCantosCheios(b);
    if cantos != 3 {
      return false;
    }
    var i := 0;
    while i < Size
      invariant 0 <= i <= Size
      invariant forall k :: 0 <= k < i ==> rowCounts[k] >= MinFilled && colCounts[k] >= MinFilled
    {
      if rowCounts[i] < MinFilled || colCounts[i] < MinFilled {
        return false;
      }
      i := i + 1;
    }
    var regioesTipo1 := ScanPattern(b, Type1);
    var regioesTipo2 := ScanPattern(b, Type2);
    ScanMeasures(b, Type1, regioesTipo1);
    ScanMeasures(b, Type2, regioesTipo2);
    if |regioesTipo1| < 2 || |regioesTipo2| < 2 {
      return false;
    }
    var count1 := CountDistinctBlocks(regioesTipo1, 10);
    if count1 < 2 {
      return false;
    }
    var count2 := CountDistinctBlocks(regioesTipo2, 10);
    if count2 < 2 {
      return false;
    }
    return true;
  }

  /** resolver's entry condition at traversal position n: the counts are
      those of the cells before n, and every cell from n on is 0. */
  ghost predicate Ready(st: State, n: int)
  {
    && CountsAt(st.board, st.rowCounts, st.colCounts, n)
    && forall k :: 0 <= n <= k < Cells ==> !st.board[k]
  }

  /** The base case of resolver: with every cell committed, the board is
      validated and, if accepted, a copy of it is stored. */
  method GuardarSeValido(st: State, cap: nat) returns (out: State)
    requires CountsAt(st.board, st.rowCounts, st.colCounts, Cells)
    requires |st.solutions| < cap
    ensures out == st.(solutions := out.solutions)
    ensures out.solutions == st.solutions + Take(Completions(st.board), cap - |st.solutions|)
  {
    forall i | 0 <= i < Size
      ensures st.rowCounts[i] == RowTotal(st.board, i) && st.colCounts[i] == ColTotal(st.board, i)
    {
      CountsComplete(st.board, i);
    }
    var ok := EhValidoCompleto(st.board, st.rowCounts, st.colCounts);
    if ok {
      var solucao := CopyBoard(EmptyBoard, st.board);
      out := st.(solutions := st.solutions + [solucao]);
    } else {
      out := st;
    }
  }

  /** resolver(linha, coluna). On entry the counts are those of the cells
      before (linha, coluna), every later cell is 0, and p names the cells
      before (linha, coluna). It tries 0 then 1 in the cell (TentarValor).
      It returns the board and counts it was given, and appends to the
      solutions the first valid completions of p, in search order, up to
      the cap. */
  method Resolver(st: State, linha: int, coluna: int, cap: nat, ghost p: seq<bool>) returns (out: State)
    requires 0 <= linha <= Size && 0 <= coluna < Size && (linha == Size ==> coluna == 0)
    requires Ready(st, linha * 12 + coluna) && st.board[..linha * 12 + coluna] == p
    ensures out == st.(solutions := out.solutions)
    ensures out.solutions == st.solutions + Take(Completions(p), cap - |st.solutions|)
    decreases Cells - (linha * 12 + coluna), 3
  {
    out := st;
    if |st.solutions| >= cap {
      assert out.solutions == st.solutions + [];
    } else if linha == Size {
      out := GuardarSeValido(st, cap);
      assert p == st.board;
    } else {
      out := PercorrerValores(st, linha, coluna, cap, p);
    }
  }

  /** resolver's loop over valor = 0, 1 at a cell before the end of the
      board, while there is room for another solution. */
  method PercorrerValores(st: State, linha: int, coluna: int, cap: nat, ghost p: seq<bool>) returns (out: State)
    requires 0 <= linha < Size && 0 <= coluna < Size
    requires Ready(st, linha * 12 + coluna) && st.board[..linha * 12 + coluna] == p
    ensures out == st.(solutions := out.solutions)
    ensures out.solutions == st.solutions + Take(Completions(p), cap - |st.solutions|)
    decreases Cells - (linha * 12 + coluna), 2
  {
    out := st;
    var valor := 0;
    while valor <= 1
      invariant 0 <= valor <= 2
      invariant out == st.(solutions := out.solutions)
      invariant out.solutions == st.solutions + Take(Branches(p, valor), cap - |st.solutions|)
    {
      var after := TentarValor(out, linha, coluna, valor, cap, p);
      BranchesStep(p, valor);
      TakeSequential(st.solutions, Branches(p, valor), Completions(p + [valor == 1]), cap,
                     out.solutions, after.solutions);
      out := after;
      valor := valor + 1;
    }
    CompletionsSplit(p);
  }

  /** The commit at the top of resolver's loop: the cell takes valor and
      the counts of its row and column grow by valor. */
  function Commit(st: State, linha: int, coluna: int, valor: int): State
    requires 0 <= linha < Size && 0 <= coluna < Size
    requires |st.rowCounts| == Size && |st.colCounts| == Size
  {
    State(st.board[linha * 12 + coluna := valor == 1],
          st.rowCounts[linha := st.rowCounts[linha] + valor],
          st.colCounts[coluna := st.colCounts[coluna] + valor],
          st.solutions)
  }

  /** The undo at the bottom of resolver's loop: the counts shrink by valor
      and the cell is reset to 0. */
  function Undo(st: State, linha: int, coluna: int, valor: int): State
    requires 0 <= linha < Size && 0 <= coluna < Size
    requires |st.rowCounts| == Size && |st.colCounts| == Size
  {
    State(st.board[linha * 12 + coluna := false],
          st.rowCounts[linha := st.rowCounts[linha] - valor],
          st.colCounts[coluna := st.colCounts[coluna] - valor],
          st.solutions)
  }

  /** After the commit the state meets resolver's entry condition one cell
      further on, and its prefix is the old prefix plus the new cell. */
  lemma CommitReady(st: State, linha: int, coluna: int, valor: int)
    requires 0 <= linha < Size && 0 <= coluna < Size && 0 <= valor <= 1
    requires Ready(st, linha * 12 + coluna)
    ensures Ready(Commit(st, linha, coluna, valor), linha * 12 + coluna + 1)
    ensures Commit(st, linha, coluna, valor).board[..linha * 12 + coluna + 1]
         == st.board[..linha * 12 + coluna] + [valor == 1]
  {
    CountsCommit(st.board, st.rowCounts, st.colCounts, linha, coluna, valor == 1);
  }

  /** Undoing a commit, whatever solutions were added in between, gives
      back the board and counts the commit started from (its cell was 0). */
  lemma UndoCommit(st: State, linha: int, coluna: int, valor: int, sols: seq<Board>)
    requires 0 <= linha < Size && 0 <= coluna < Size
    requires |st.rowCounts| == Size && |st.colCounts| == Size
    requires !st.board[linha * 12 + coluna]
    ensures Undo(Commit(st, linha, coluna, valor).(solutions := sols), linha, coluna, valor)
         == st.(solutions := sols)
  {
  }

  /** One pass of resolver's loop: commit valor, explore from there
      (Explorar), then undo. Board and counts come back as they were; the
      solutions gain the first valid completions of p with this value in
      the next cell, up to the cap. */
  method TentarValor(cur: State, linha: int, coluna: int, valor: int, cap: nat, ghost p: seq<bool>)
    returns (after: State)
    requires 0 <= linha < Size && 0 <= coluna < Size && 0 <= valor <= 1
    requires Ready(cur, linha * 12 + coluna) && cur.board[..linha * 12 + coluna] == p
    ensures after == cur.(solutions := after.solutions)
    ensures after.solutions == cur.solutions + Take(Completions(p + [valor == 1]), cap - |cur.solutions|)
    decreases Cells - (linha * 12 + coluna), 1
  {
    var trial := Commit(cur, linha, coluna, valor);
    CommitReady(cur, linha, coluna, valor);
    trial := Explorar(trial, linha, coluna, cap, p + [valor == 1]);
    after := Undo(trial, linha, coluna, valor);
    UndoCommit(cur, linha, coluna, valor, trial.solutions);
  }

  /** The body of resolver's loop after the commit: recurse into the
      row-major successor unless eh_valido_parcial rejects, in which case
      no valid completion is lost. */
  method Explorar(trial: State, linha: int, coluna: int, cap: nat, ghost p: seq<bool>) returns (out: State)
    requires 0 <= linha < Size && 0 <= coluna < Size
    requires Ready(trial, linha * 12 + coluna + 1) && trial.board[..linha * 12 + coluna + 1] == p
    ensures out == trial.(solutions := out.solutions)
    ensures out.solutions == trial.solutions + Take(Completions(p), cap - |trial.solutions|)
    decreases Cells - (linha * 12 + coluna), 0
  {
    var next := NextCell(linha, coluna);
    if EhValidoParcial(trial.rowCounts, trial.colCounts, linha, coluna) {
      out := Resolver(trial, next.0, next.1, cap, p);
    } else {
      PrunedBranchEmpty(trial.board, trial.rowCounts, trial.colCounts, linha, coluna);
      out := trial;
      assert out.solutions == trial.solutions + [];
    }
  }

  /** gerar_codigos_qr: zero counts, an all-empty board and no solutions,
      then resolver(0, 0). The result is the first MAX_SOLUCOES valid boards
      in search order; each is valid. */
  method GerarCodigosQr() returns (solucoes: seq<Board>)
    ensures solucoes == FirstValid(MaxSolucoes)
    ensures |solucoes| <= MaxSolucoes
    ensures forall s :: s in solucoes ==> Valid(s)
  {
    var contagemLinhas := seq(Size, i => 0);
    var contagemColunas := seq(Size, i => 0);
    CountsStart(EmptyBoard);
    assert EmptyBoard[..0] == [];
    var out := Resolver(State(EmptyBoard, contagemLinhas, contagemColunas, []), 0, 0, MaxSolucoes, []);
    solucoes := out.solutions;
    AppendedValid([], [], MaxSolucoes, solucoes);
  }
}
