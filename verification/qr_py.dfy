/** The Python variant (qrcode/qr_code.py): a validator built from small
    pure helpers (list comprehensions and sums), and an unpruned search
    with the row-major successor computed by integer division and modulo. */
module QrPy {
  import opened QrBoard
  import opened QrSearch

  /** MAX_SOLUCOES of this variant. */
  const MaxSolucoes: nat := 5

  /** verifica_bloco_canto: false when the 2x2 block at (r, c) would leave
      the board, else whether its four cells are filled. */
  function VerificaBlocoCanto(b: Board, r: int, c: int): (full: bool)
    requires 0 <= r && 0 <= c
    ensures full <==> r + 1 < Size && c + 1 < Size
                      && forall i, j :: r <= i <= r + 1 && c <= j <= c + 1 ==> At(b, i, j)
  {
    !(r + 1 >= Size || c + 1 >= Size) && BlockFull(b, r, c)
  }

  /** The sum count_cantos over the first n entries of the corner list. */
  function ContaCantos(b: Board, n: int): (count: nat)
    requires 0 <= n <= 4
    ensures count == FullAnchors(b, n)
    ensures count <= n
  {
    if n == 0 then 0
    else ContaCantos(b, n - 1) + (if VerificaBlocoCanto(b, Anchors[n - 1].0, Anchors[n - 1].1) then 1 else 0)
  }

  /** sum(linha) over the first n cells of row r. */
  function SomaLinha(b: Board, r: int, n: int): (s: nat)
    requires 0 <= r < Size && 0 <= n <= Size
    ensures s == |RowPart(b, r, n)|
  {
    if n == 0 then 0
    else
      RowPartStep(b, r, n - 1);
      SomaLinha(b, r, n - 1) + (if At(b, r, n - 1) then 1 else 0)
  }

  /** sum(tabuleiro[r][c] for r in ...) over the first n rows of column c. */
  function SomaColuna(b: Board, c: int, n: int): (s: nat)
    requires 0 <= c < Size && 0 <= n <= Size
    ensures s == |ColPart(b, c, n)|
  {
    if n == 0 then 0
    else
      ColPartStep(b, c, n - 1);
      SomaColuna(b, c, n - 1) + (if At(b, n - 1, c) then 1 else 0)
  }

  /** conta_linhas_colunas: the filled-cell count of every row and of every
      column. */
  function ContaLinhasColunas(b: Board): (counts: (seq<nat>, seq<nat>))
    ensures |counts.0| == Size && |counts.1| == Size
    ensures forall i :: 0 <= i < Size ==> counts.0[i] == RowTotal(b, i) && counts.1[i] == ColTotal(b, i)
  {
    (seq(Size, r requires 0 <= r < Size => SomaLinha(b, r, Size)),
     seq(Size, c requires 0 <= c < Size => SomaColuna(b, c, Size)))
  }

  /** The double loop of encontra_subregioes_tipo1/2 from block (r, c) on:
      the matching blocks at or after (r, c), in the order the loops visit
      them. */
  function ScanFrom(b: Board, p: Pattern, r: int, c: int): (regioes: seq<Coord>)
    requires 0 <= r <= Size - 1 && 0 <= c <= Size - 1
    ensures forall m :: m in regioes <==>
      InBlockRange(m) && (m.0 > r || (m.0 == r && m.1 >= c)) && Matches(b, p, m.0, m.1)
    ensures RowMajor(regioes)
    ensures forall m :: m in regioes ==> Key(m) >= r * 12 + c
    decreases Size - 1 - r, Size - 1 - c
  {
    if r == Size - 1 then []
    else if c == Size - 1 then ScanFrom(b, p, r + 1, 0)
    else
      var rest := ScanFrom(b, p, r, c + 1);
      if Matches(b, p, r, c) then [(r, c)] + rest else rest
  }

  /** encontra_subregioes_tipo1: every [1,0;1,1] block, in row-major order. */
  function EncontraSubregioesTipo1(b: Board): (regioes: seq<Coord>)
    ensures IsScanOf(b, Type1, regioes)
  {
    ScanFrom(b, Type1, 0, 0)
  }

  /** encontra_subregioes_tipo2: every [1,1;0,1] block, in row-major order. */
  function EncontraSubregioesTipo2(b: Board): (regioes: seq<Coord>)
    ensures IsScanOf(b, Type2, regioes)
  {
    ScanFrom(b, Type2, 0, 0)
  }

  /** verifica_subtabuleiros_distintos: the set of (r // 3, c // 3) has at
      least two members. Python's // floors, which for the divisor 3 is
      Dafny's division. */
  function VerificaSubtabuleirosDistintos(regioes: seq<Coord>): (distintos: bool)
    ensures distintos <==> exists m1, m2 :: m1 in regioes && m2 in regioes && SuperBlock(m1) != SuperBlock(m2)
  {
    var vistos := set m | m in regioes :: SuperBlock(m);
    TwoElements(vistos);
    if |vistos| >= 2 then
      true
    else
      assert forall m1, m2 :: m1 in regioes && m2 in regioes ==> SuperBlock(m1) in vistos && SuperBlock(m2) in vistos;
      false
  }

  /** Python's any(x < 5 ...) over the two count lists rejects exactly
      the boards that break rule 2. */
  lemma CountsDecideRowsCols(b: Board)
    ensures var (linhas, colunas) := ContaLinhasColunas(b);
      ((exists x :: x in linhas && x < MinFilled) || (exists x :: x in colunas && x < MinFilled))
      <==> !RowsColsOk(b)
  {
    var (linhas, colunas) := ContaLinhasColunas(b);
    if !RowsColsOk(b) {
      var i :| 0 <= i < Size && !(RowTotal(b, i) >= MinFilled && ColTotal(b, i) >= MinFilled);
      assert linhas[i] in linhas && colunas[i] in colunas;
    }
    if x :| x in linhas && x < MinFilled {
      var i :| 0 <= i < Size && linhas[i] == x;
    }
    if x :| x in colunas && x < MinFilled {
      var i :| 0 <= i < Size && colunas[i] == x;
    }
  }

  /** For a list the scan returned, the length test and the distinctness
      test together decide rules 3-5 for that pattern. */
  lemma ScanDecidesPattern(b: Board, p: Pattern, regioes: seq<Coord>)
    requires IsScanOf(b, p, regioes)
    ensures |regioes| >= 2 && VerificaSubtabuleirosDistintos(regioes) <==> PatternOk(b, p)
  {
    ScanMeasures(b, p, regioes);
    TwoElements(SuperBlocks(MatchSet(b, p)));
    var vistos := set m | m in regioes :: SuperBlock(m);
    TwoElements(vistos);
  }

  /** tabuleiro_valido: the checks in the source's order; it accepts
      exactly the valid boards. */
  function TabuleiroValido(b: Board): (ok: bool)
    ensures ok <==> Valid(b)
  {
    var countCantos := ContaCantos(b, 4);
    CornerCountDecides(b);
    if countCantos != 3 then false
    else
      var (linhas, colunas) := ContaLinhasColunas(b);
      CountsDecideRowsCols(b);
      if (exists x :: x in linhas && x < MinFilled) || (exists x :: x in colunas && x < MinFilled) then false
      else
        var tipo1 := EncontraSubregioesTipo1(b);
        var tipo2 := EncontraSubregioesTipo2(b);
        ScanDecidesPattern(b, Type1, tipo1);
        ScanDecidesPattern(b, Type2, tipo2);
        if |tipo1| < 2 || |tipo2| < 2 then false
        else if !VerificaSubtabuleirosDistintos(tipo1) || !VerificaSubtabuleirosDistintos(tipo2) then false
        else true
  }

  /** The successor of backtracking: linha + (coluna + 1) // 12 and
      (coluna + 1) % 12. It is the same cell as the C variants' if-based
      successor. */
  function ProximaPosicao(linha: int, coluna: int): (next: (int, int))
    requires 0 <= linha < Size && 0 <= coluna < Size
    ensures next == NextCell(linha, coluna)
  {
    (linha + (coluna + 1) / Size, (coluna + 1) % Size)
  }

  /** backtracking(tabuleiro, linha, coluna). The cap is checked on entry
      only. The prefix before (linha, coluna) comes back unchanged, and no
      cell from there on that was 0 is left at 1 (the final reset), so a
      board whose remaining cells were 0 comes back as it was. The solutions
      gain the first valid completions of the prefix, in search order, up
      to the cap. */
  method Backtracking(tabuleiro: Board, solucoes: seq<Board>, linha: int, coluna: int, cap: nat)
    returns (tabuleiro': Board, solucoes': seq<Board>)
    requires 0 <= linha <= Size && 0 <= coluna < Size && (linha == Size ==> coluna == 0)
    ensures tabuleiro'[..linha * 12 + coluna] == tabuleiro[..linha * 12 + coluna]
    ensures forall k :: linha * 12 + coluna <= k < Cells && !tabuleiro[k] ==> !tabuleiro'[k]
    ensures solucoes' == solucoes + Take(Completions(tabuleiro[..linha * 12 + coluna]), cap - |solucoes|)
    decreases Cells - (linha * 12 + coluna), 1
  {
    var pos := linha * 12 + coluna;
    ghost var p := tabuleiro[..pos];
    tabuleiro', solucoes' := tabuleiro, solucoes;
    if |solucoes| >= cap {
      assert solucoes' == solucoes + [];
    } else if linha == Size {
      assert p == tabuleiro;
      if TabuleiroValido(tabuleiro) {
        var copia := tabuleiro;
        solucoes' := solucoes + [copia];
      }
    } else {
      CompletionsSplit(p);
      tabuleiro', solucoes' := TentaValor(tabuleiro', solucoes', linha, coluna, false, cap);
      ghost var afterZero := solucoes';
      assert tabuleiro'[..pos] == p;
      tabuleiro', solucoes' := TentaValor(tabuleiro', solucoes', linha, coluna, true, cap);
      TakeSequential(solucoes, Completions(p + [false]), Completions(p + [true]), cap, afterZero, solucoes');
      ghost var beforeReset := tabuleiro';
      tabuleiro' := tabuleiro'[pos := false];
      assert tabuleiro'[..pos] == beforeReset[..pos];
    }
  }

  /** One assignment of backtracking: write v into (linha, coluna) and
      search from the successor. */
  method TentaValor(tabuleiro: Board, solucoes: seq<Board>, linha: int, coluna: int, v: bool, cap: nat)
    returns (tabuleiro': Board, solucoes': seq<Board>)
    requires 0 <= linha < Size && 0 <= coluna < Size
    ensures tabuleiro'[..linha * 12 + coluna] == tabuleiro[..linha * 12 + coluna]
    ensures forall k :: linha * 12 + coluna < k < Cells && !tabuleiro[k] ==> !tabuleiro'[k]
    ensures solucoes' == solucoes + Take(Completions(tabuleiro[..linha * 12 + coluna] + [v]), cap - |solucoes|)
    decreases Cells - (linha * 12 + coluna), 0
  {
    var pos := linha * 12 + coluna;
    var next := ProximaPosicao(linha, coluna);
    tabuleiro' := tabuleiro[pos := v];
    assert tabuleiro'[..pos + 1] == tabuleiro[..pos] + [v];
    tabuleiro', solucoes' := Backtracking(tabuleiro', solucoes, next.0, next.1, cap);
    assert tabuleiro'[..pos] == tabuleiro'[..pos + 1][..pos];
  }

  /** The search part of main: an all-zero board and no solutions, then
      backtracking(tabuleiro). The result is the first MAX_SOLUCOES valid
      boards in search order. */
  method BuscarSolucoes() returns (solucoes: seq<Board>)
    ensures solucoes == FirstValid(MaxSolucoes)
    ensures |solucoes| <= MaxSolucoes
    ensures forall s :: s in solucoes ==> Valid(s)
  {
    var tabuleiro;
    tabuleiro, solucoes := Backtracking(EmptyBoard, [], 0, 0, MaxSolucoes);
    assert EmptyBoard[..0] == [];
    AppendedValid([], [], MaxSolucoes, solucoes);
  }
}
