# QR-board search and minimum-weight change, in Dafny

This project models two small programs from one repository.

The first is the 12x12 "hypothetical QR code" generator. It comes in three
variants: `qrcode/qr_txt_generator.c`, `qrcode/qr.c` and `qrcode/qr_code.py`.
Each assigns the 144 cells in row-major order, trying 0 before 1. Each keeps
the first few complete boards its validator accepts. A board is valid when:

1. exactly three of the four corner 2x2 blocks are full;
2. every row and every column has at least five filled cells;
3. at least two [1,0;1,1] blocks exist (Type 1), and they fall in at least
   two distinct 3x3 super-blocks;
4. the same holds for [1,1;0,1] blocks (Type 2).

The variants differ in their caps: 10, 1 and 5 solutions. They also differ
in other ways:

- The first variant keeps running row and column counts and prunes a branch
  whose row or column can no longer reach five.
- `qr.c` has no pruning (`is_valid_partial` is the constant `QrC.IsValidPartial`).
  It never clears a cell on the way back, and it checks the cap again
  between the 0 and 1 branches.
- The Python variant builds its validator from list comprehensions and
  `sum`. It computes the successor cell with `//` and `%`.

The second program is `troco/troco.c`. It fills a table of the least total
coin weight for every amount up to the change, with the value of the last
coin used, and walks back through that table to count the coins.

## How the model is organised

- `board.dfy` (`QrBoard`): the board as a flat `seq<bool>` of 144 cells, and
  the acceptance rule `Valid`. The rule is stated once, over sets and
  cardinalities. This module also holds the running-count invariant
  `CountsAt` used by the pruned variant.
- `search.dfy` (`QrSearch`): the reference for all three searches. The ghost
  `Completions(p)` lists the valid boards extending the prefix `p` in
  depth-first order, 0 before 1. It is proved to be exactly the valid
  extensions, each listed once, in strictly increasing lexicographic order.
  Every search is proved to append `Take(Completions(prefix), cap - |solutions|)`,
  so each variant's result is `FirstValid(cap)`.
- `regions.dfy` (`RegionScan`): the region scan and the super-block id
  de-duplication that the two C files share. The id factor is 10 in one file
  and 100 in the other.
- `txt_generator.dfy` (`QrTxtGenerator`), `qr_c.dfy` (`QrC`) and `qr_py.dfy`
  (`QrPy`): the three variants.
- `troco.dfy` (`Troco`): the change table.
  - `IsTable` is the recurrence the fill establishes. The lowest index wins
    a tie, because the update uses a strict `>`.
  - `TableOptimal` proves that an entry is the sentinel exactly when the
    amount cannot be paid, and is otherwise the least weight of a payment.

Global variables (`solucoes`, `num_solucoes_encontradas`, `contagem_linhas`,
`contagem_colunas`, `solutions`) are threaded through as values. Boards are
values, so a copy into a fresh allocation is the board itself
(`QrBoard.CopyBoard`).

## Model

| member | source | states |
|---|---|---|
| QrBoard.CornerCountDecides | qrcode/qr_txt_generator.c:150-160 | counting the full corner blocks and comparing with 3 holds exactly when exactly one corner block is open |
| QrBoard.FourFullCornersRejected | qrcode/qr_txt_generator.c:159-160 | a board with all four corner blocks full is rejected |
| QrBoard.CountsCommit | qrcode/qr_txt_generator.c:322-325 | writing valor into the cell and adding it to its row and column counts keeps the counts exact one position further on |
| QrBoard.CountsStart | qrcode/qr_txt_generator.c:348-351 | zeroed counts are exact before the first cell |
| QrBoard.CountsComplete | qrcode/qr_txt_generator.c:164-169 | once every cell is committed, the running counts are the row and column totals that rule 2 reads |
| QrBoard.CopyBoard | qrcode/qr.c:28-34 | the cell-by-cell copy leaves dest equal to src |
| QrBoard.ScanMeasures | qrcode/qr.c:117-169 | the length of a scanned region list is the number of matching blocks, and its super-blocks are those of the matches |
| QrSearch.NextCell | qrcode/qr_txt_generator.c:309-317 | the successor is the next row-major position, and row 12 with column 0 marks the end |
| QrSearch.FirstValidPrefix | qrcode/qr_txt_generator.c:8-10 | with a smaller cap the search keeps a prefix of what a larger cap keeps, so the variants (caps 10, 1, 5) agree in content and order as far as the smaller cap reaches |
| QrSearch.CompletionsSound | qrcode/qr_txt_generator.c:286-305 | every board the reference lists is valid and extends the prefix |
| QrSearch.CompletionsComplete | qrcode/qr_txt_generator.c:319-339 | every valid board that extends the prefix is listed |
| QrSearch.CompletionsOrdered | qrcode/qr.c:233-247 | the listing is strictly increasing in lexicographic order, 0 before 1, so nothing repeats |
| QrSearch.SplitOrdered | qrcode/qr.c:233-247 | a board with 0 in the next cell comes before one with 1 there |
| QrSearch.AppendedValid | qrcode/qr_txt_generator.c:280-304 | what a search appends stays within the cap and is made of valid boards |
| RegionScan.ScanPattern | qrcode/qr_txt_generator.c:186-207 | the region list holds exactly the blocks matching the pattern, in row-major order, at most 121 of them |
| RegionScan.BlockIdInjective | qrcode/qr_txt_generator.c:221 | (l/3)*10 + c/3, and likewise with 100, gives different super-blocks different ids |
| RegionScan.IdLookup | qrcode/qr_txt_generator.c:222-229 | finding an id in the seen list means its super-block was seen |
| RegionScan.CountDistinctBlocks | qrcode/qr_txt_generator.c:214-238 | the de-duplicating loop counts the distinct super-blocks the regions fall in |
| QrTxtGenerator.VerificarBloco2x2Cheio | qrcode/qr_txt_generator.c:98-108 | true exactly when the block lies inside the board and its four cells are filled |
| QrTxtGenerator.ContarCantosCheios | qrcode/qr_txt_generator.c:150-160 | the corner count is the number of full corner blocks, and it equals 3 exactly under rule 1 |
| QrTxtGenerator.EhValidoParcial | qrcode/qr_txt_generator.c:122-138 | the prune test on the running counts; what it means is stated by PruneSound (it never rejects a prefix of a board meeting rule 2) and PrunedBranchEmpty (a rejected branch has no valid completion) |
| QrTxtGenerator.PruneSound | qrcode/qr_txt_generator.c:122-138 | a board that meets rule 2 never fails the prune at any cell |
| QrTxtGenerator.PrunedBranchEmpty | qrcode/qr_txt_generator.c:327-332 | a branch the prune abandons has no valid completion |
| QrTxtGenerator.EhValidoCompleto | qrcode/qr_txt_generator.c:148-264 | accepts exactly when rules 1, 3 and 4 hold and the count arrays passed in are all at least 5; given exact counts, exactly the valid boards |
| QrTxtGenerator.GuardarSeValido | qrcode/qr_txt_generator.c:286-307 | a complete board is stored exactly when it is valid, and board and counts are unchanged |
| QrTxtGenerator.Resolver | qrcode/qr_txt_generator.c:277-340 | returns board and counts as given, and appends the first valid completions of the prefix up to the cap |
| QrTxtGenerator.PercorrerValores | qrcode/qr_txt_generator.c:320-339 | the loop over 0 and 1 appends the completions of both branches up to the cap |
| QrTxtGenerator.CommitReady | qrcode/qr_txt_generator.c:322-325 | after the commit, the counts are exact one cell on, later cells are 0, and the prefix grows by the new cell |
| QrTxtGenerator.UndoCommit | qrcode/qr_txt_generator.c:336-338 | the undo restores the board and counts that the commit started from |
| QrTxtGenerator.TentarValor | qrcode/qr_txt_generator.c:321-338 | commit, explore and undo leave board and counts as they were, and append the completions with this value up to the cap |
| QrTxtGenerator.Explorar | qrcode/qr_txt_generator.c:329-332 | the branch contributes its completions whether it is explored or pruned |
| QrTxtGenerator.GerarCodigosQr | qrcode/qr_txt_generator.c:346-380 | the stored solutions are the first 10 valid boards in search order, each valid |
| QrC.IsValidPartial | qrcode/qr.c:37-48 | constant true: no branch is pruned, so Solve explores every assignment and its result is FirstValid(1) |
| QrC.CountFilledCorners | qrcode/qr.c:53-85 | the early-exit nested loops count the full corner blocks, and the count is 3 exactly under rule 1 |
| QrC.RowsAndColumnsFilled | qrcode/qr.c:87-98 | recounting from the board accepts exactly under rule 2 |
| QrC.IsValidFull | qrcode/qr.c:51-198 | accepts exactly the valid boards |
| QrC.SaveIfValid | qrcode/qr.c:207-223 | a complete board is appended exactly when it is valid |
| QrC.Solve | qrcode/qr.c:201-252 | keeps the prefix and appends the first valid completions of it up to the cap, re-checking the cap between branches; stale later cells do not matter |
| QrC.TryValue | qrcode/qr.c:233-247 | writing v and recursing appends the completions with v in the cell |
| QrC.GenerateQrCodes | qrcode/qr.c:255-269 | the result is the first valid board in search order, if there is one |
| QrPy.VerificaBlocoCanto | qrcode/qr_code.py:11-15 | true exactly when the block lies inside the board and is full |
| QrPy.ContaCantos | qrcode/qr_code.py:48-49 | the sum over the corner list is the number of full corner blocks |
| QrPy.SomaLinha | qrcode/qr_code.py:18 | sum(linha) is the number of filled cells in the row |
| QrPy.SomaColuna | qrcode/qr_code.py:19 | the column sum is the number of filled cells in the column |
| QrPy.ContaLinhasColunas | qrcode/qr_code.py:17-20 | returns the filled-cell total of every row and every column |
| QrPy.ScanFrom | qrcode/qr_code.py:24-28 | from block (r, c) on, the list holds exactly the later matching blocks in row-major order |
| QrPy.EncontraSubregioesTipo1 | qrcode/qr_code.py:22-29 | lists exactly the Type 1 blocks in row-major order |
| QrPy.EncontraSubregioesTipo2 | qrcode/qr_code.py:31-38 | lists exactly the Type 2 blocks in row-major order |
| QrPy.VerificaSubtabuleirosDistintos | qrcode/qr_code.py:40-45 | true exactly when two listed regions lie in different super-blocks |
| QrPy.CountsDecideRowsCols | qrcode/qr_code.py:53-55 | some count below 5 exactly when rule 2 fails |
| QrPy.ScanDecidesPattern | qrcode/qr_code.py:57-64 | for a scanned list, the length and distinctness tests together decide rules 3-5 for the pattern |
| QrPy.TabuleiroValido | qrcode/qr_code.py:47-66 | accepts exactly the valid boards |
| QrPy.ProximaPosicao | qrcode/qr_code.py:104-105 | the // and % successor is the same cell as the C variants' successor |
| QrPy.Backtracking | qrcode/qr_code.py:94-116 | keeps the prefix, returns later empty cells empty, and appends the first valid completions up to the cap |
| QrPy.TentaValor | qrcode/qr_code.py:107-113 | writing v and recursing appends the completions with v in the cell |
| QrPy.BuscarSolucoes | qrcode/qr_code.py:118-120 | the result is the first 5 valid boards in search order, each valid |
| Troco.DotIncrement | troco/troco.c:70 | one more coin of a kind adds its value, or its weight, once |
| Troco.Inicializar | troco/troco.c:18-24 | amount 0 costs 0 with last coin 0; every other amount starts at the sentinel with last coin -1 |
| Troco.ExceedsMatchesSentinelCompare | troco/troco.c:33-34 | while weights stay below LLONG_MAX, the comparison on Weight values is the source's `>` on the stored long longs, with the sentinel stored as LLONG_MAX |
| Troco.BestStep | troco/troco.c:32-37 | trying one more coin keeps the entry at the lightest candidate, first index on ties |
| Troco.TentarMoeda | troco/troco.c:29-37 | one inner pass keeps the entry the best among the coins tried |
| Troco.TentarMoedas | troco/troco.c:28-39 | after all coins, entry v follows the recurrence and no other entry changed |
| Troco.TableFrame | troco/troco.c:27-40 | settling entry v leaves the recurrence of lower entries intact |
| Troco.PreencherTabela | troco/troco.c:26-40 | the filled table follows the recurrence at every amount |
| Troco.WinnerAt | troco/troco.c:35-36 | a finite entry was set by a winning coin whose value is the recorded last coin |
| Troco.TableIsLowerBound | troco/troco.c:26-40 | every way to pay v weighs at least its entry, which is then finite |
| Troco.TableIsAchieved | troco/troco.c:26-40 | every finite entry is the weight of some way to pay that amount |
| Troco.TableOptimal | troco/troco.c:59 | an entry is the sentinel exactly when the amount cannot be paid, and is otherwise the least weight of a payment |
| Troco.PrimeiraComValor | troco/troco.c:68-73 | the search stops at the first kind with the given value |
| Troco.ReconstruirComoEscrito | troco/troco.c:64-75 | the walk back as written: its counts pay the change exactly, and they weigh the minimum when values are distinct |
| Troco.RepeatedValueMiscounts | troco/troco.c:64-75 | with values {1, 1}, weights {5, 3} and change 1, the table holds 3 but the walk counts a coin of weight 5 |
| Troco.Reconstruir | troco/troco.c:64-75 | the corrected walk back: its counts pay the change exactly and weigh the table's minimum; with distinct coin values they are the counts of the walk as written |
| Troco.EncontrarTrocoComoEscrito | troco/troco.c:12-84 | the function as written: reports unreachable exactly when no payment exists; otherwise the least weight, with the source's coin counts, which pay the change and, when values are distinct, have that weight |
| Troco.EncontrarTrocoOtimoComPeso | troco/troco.c:12-84 | the function with the corrected walk back: reports unreachable exactly when no payment exists; otherwise the least weight, with coin counts that pay the change and have that weight |

## Left out

- Printing and file output are not modelled: `imprimir_tabuleiro`, `salvar_qr_em_txt`, `print_board`, `salvar_txt`, `salvar_png`, the printed table and the result messages in `troco.c`. Neither are the `main` functions. These only present results.
- Allocation is not modelled: `malloc`, `calloc`, `free`, and the paths that give up when an allocation fails. Allocation is assumed to succeed.
- Cells are `bool`: every source stores only 0 or 1 in a cell.
- QrPy.VerificaBlocoCanto: requires a non-negative corner. Python's negative indexing is not modelled because the only caller passes the four fixed corners. Corners at or past the last row or column are answered False, as in the source.
- QrTxtGenerator.EhValidoCompleto: one loop of the source scans both patterns. The model runs two scans. They give the same two lists, because the two tests do not affect each other.
- Troco: integers are unbounded. The model covers neither `long long` overflow nor an `int` weight sum overflowing. A finite weight equal to `LLONG_MAX`, which the source would mistake for the sentinel, is excluded as well.
- Troco.PreencherTabela: requires coin values of at least 1 and a change of at least 0. Other inputs go wrong in the source. A negative coin value makes the fill read `peso_minimo[v - valor]` above v; near troco that is past the end of the table, and a finite value read there would make the walk back climb. A coin of value 0 is recorded only when its weight is negative, and the walk back then never leaves that amount. A negative change makes the table too small for the writes at lines 19-20.
- Troco.EncontrarTrocoOtimoComPeso: walks back with the corrected `Reconstruir` (see Findings), so with repeated coin values its counts can differ from the ones the source prints. `Troco.EncontrarTrocoComoEscrito` is the function exactly as written; the two give the same counts whenever coin values are distinct (proved on `Troco.Reconstruir`).
- The three searches state validity of the stored boards on the top-level methods (`GerarCodigosQr`, `GenerateQrCodes`, `BuscarSolucoes`). For the recursive methods it follows from their equation with `Completions` (`QrSearch.AppendedValid`).
- The model does not state running time: the searches are proved to terminate, but the number of boards they visit is not bounded.

## Findings

| source | as written | input that shows it | evidently intended | confidence | as-written member | corrected member |
|---|---|---|---|---|---|---|
| troco/troco.c:64-75 | the walk back credits the first coin kind whose value equals `ultima_moeda[v]`, even when another kind with that value set the entry | values {1, 1}, weights {5, 3}, change 1: the minimum is 3 (second coin), but one coin of the first kind, weight 5, is listed | list coins whose total weight is the minimum it prints, by crediting a kind that can have set the entry | medium; not executed | Troco.ReconstruirComoEscrito, Troco.RepeatedValueMiscounts | Troco.Reconstruir |
