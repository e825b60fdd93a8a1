# A verified model of the auto-2048 board mechanics

`auto-2048.py` plays 2048 on its own. The board is a 4x4 grid of integers,
where 0 is an empty cell. The script can move the board in four directions,
test whether the game is over or won, and weight the cells of a board by
their position. It chooses its moves with a lookahead search over the four
directions. This project models the deterministic part of that program in
Dafny and proves what it does.

The project has six modules, one file each:

- `Geometry` (`geometry.dfy`): the board as a value (`Grid`), reversal
  (Python's `[::-1]`), `zip(*b)`, and the two quarter-turn rotations.
- `Row` (`row.dfy`): `move_row_left`. It is a method with the source's
  `while` loop, proved equal to the function `SlideRow`. Lemmas about
  `SlideRow` give the tile total, the packing of tiles to the front, the
  merge-once rule (the new tiles come from consecutive, non-overlapping
  blocks of one tile or one equal pair, so there is never a cascade), the rows a move leaves unchanged, and the
  power-of-two invariant.
- `MoveEngine` (`move_engine.dfy`): the board object, as class `Board`.
  Its methods `Left`, `Right`, `Up`, `Down` and `Move` change `rows` in
  place the way `left`, `right`, `up` and `down` change the list of rows.
  Each method is proved to leave the board that a pure function gives and
  to return the "moved" flag. Lemmas relate every move to sliding each line
  of the board.
- `Terminal` (`terminal.dfy`): `is_game_over`, a method with the source's
  nested loops and early returns, and `check_2048`. The lemmas place
  `is_game_over` next to the set of legal moves. The test is sound: when it
  reports true, no direction moves. It misses exactly one case, the empty
  board, on which it reports false although no move changes anything.
- `Heuristic` (`heuristic.dfy`): the integer multiplier 0, 1, 2, 3 or 6 that
  `create_points` gives each cell, with the source's neighbour lookups as
  written. `up` is the row below (`board[r + 1]`). `down` is
  `board[r - 1][c] if r < 3`, so on row 0 Python's index -1 reads the last
  row, and on the last row it is 0. The horizontal tests are `left < v`
  and `right > v`.
- `Lookahead` (`lookahead.dfy`): `evaluate_future_states` and
  `make_best_move_with_lookahead`. The score of a position (`get_points`) is
  a parameter `points: Grid -> real`. The search is the function `Search`.
  The method `EvaluateFutureStates` has the source's loop over board copies
  and its recursion, and is proved equal to `Search`. A `ValueError` from
  `max` on an empty score map is the value `MaxOfEmpty`. That error path is
  modelled, but `SearchNeverRaises` proves it unreachable on a 4x4 board: a
  legal move always leaves a board on which some direction moves.

## Model

| member | source | states |
|---|---|---|
| `Geometry.Reverse` | auto-2048.py:57-58 | the reversed list has the same length, and its i-th element is element n-1-i of the input |
| `Geometry.Transpose` | auto-2048.py:37-43 | `zip(*b)` on a 4x4 board: cell (i, j) of the result is cell (j, i) of the input |
| `Geometry.TransposeTwice` | auto-2048.py:37-43 | transposing twice gives the board back |
| `Geometry.RotateClockwise` | auto-2048.py:37-39 | the result is a 4x4 board and its cell (i, j) is cell (3-j, i) of the input |
| `Geometry.RotateCounterclockwise` | auto-2048.py:41-43 | the result is a 4x4 board and its cell (i, j) is cell (j, 3-i) of the input |
| `Geometry.RotationsInverse` | auto-2048.py:37-43 | clockwise after counter-clockwise is the identity, and so is the other order |
| `Row.Compact` | auto-2048.py:26 | the kept list is no longer than the row and holds only non-zero values taken from the row |
| `Row.Merge` | auto-2048.py:27-34 | the merging pass never lengthens the list, keeps a non-empty list non-empty, and keeps a list of non-zero tiles free of zeros |
| `Row.SlideRow` | auto-2048.py:35 | a row of at most four cells comes back with exactly four |
| `Row.MoveRowLeft` | auto-2048.py:24-35 | the compact-then-loop method returns exactly `SlideRow` of its row |
| `Row.SlideRowKeepsSum` | auto-2048.py:24-35 | the total of the tile values is the same before and after the slide |
| `Row.SlideRowPacked` | auto-2048.py:26-35 | after the first empty cell of a slid row every cell is empty |
| `Row.MergeValues` | auto-2048.py:28-34 | every tile the pass produces is an input tile or the double of one |
| `Row.MergedFromAt` | auto-2048.py:28-34 | the value at each place of the pass is the input tile at some place p, or the sum of the equal tiles at p and p + 1 |
| `Row.MergeFromPairs` | auto-2048.py:28-34 | every value of the pass is one input tile or the sum of one equal adjacent pair of input tiles (the places may repeat here; `MergeOnce` orders them) |
| `Row.SourcesCons` | auto-2048.py:29-34 | one step of the loop: a first value using the first one or two tiles, followed by the sources of the rest, gives sources for the whole list |
| `Row.MergeOnce` | auto-2048.py:28-34 | merge once: for non-zero tiles, the values of the pass come from consecutive, non-overlapping blocks of one tile or one equal pair that use up the whole input, so no tile takes part in two merges |
| `Row.CascadeRuledOut` | auto-2048.py:28-34 | the cascade `[2, 2, 4, 4] -> [8, 4]` has no such blocks, and the pass gives `[4, 8]` |
| `Row.MergeAtLeastHalf` | auto-2048.py:28-34 | each value of the pass uses at most two input tiles, so at least half as many values come out as tiles went in |
| `Row.CompactPadded` | auto-2048.py:26-35 | compacting a list of tiles padded with empty cells gives the tiles back |
| `Row.SlideRowMergesOnce` | auto-2048.py:24-35 | every tile of a slid row is a tile of the row or the sum of an equal adjacent pair of its tiles; the slid row's tiles come from consecutive, non-overlapping blocks of the row's tiles that use them all; and the slid row keeps at least half as many tiles |
| `Row.SlideRowValues` | auto-2048.py:24-35 | every cell of a slid row is empty, a tile of the row, or the double of a tile of the row |
| `Row.MergeOnceExample` | auto-2048.py:28-34 | `[2, 2, 2, 2]` becomes `[4, 4, 0, 0]`: a merged tile is not merged again in the same pass |
| `Row.NoCascadeExample` | auto-2048.py:28-34 | `[2, 2, 4, 0]` becomes `[4, 4, 0, 0]`: the new 4 does not merge with the old 4 |
| `Row.EmptyRowExample` | auto-2048.py:24-35 | the empty row comes back empty |
| `Row.LeftmostTileExample` | auto-2048.py:24-35 | `[2, 0, 0, 0]` comes back unchanged |
| `Row.GapExample` | auto-2048.py:24-35 | `[0, 2, 0, 0]` becomes `[2, 0, 0, 0]` |
| `Row.PackedFixpoint` | auto-2048.py:26-35 | merging the compacted row and padding it to the row's length gives the row back exactly when the row is settled (no tile after a gap, no equal neighbours) |
| `Row.SlideRowFixpoint` | auto-2048.py:24-35 | on a four-cell row, `move_row_left` returns the row unchanged exactly when the row is settled |
| `Row.FullDistinctRowUnchanged` | auto-2048.py:24-35 | a full row with no equal neighbours comes back unchanged |
| `Row.MergeSameLength` | auto-2048.py:28-34 | a merging pass that keeps the length returns its input |
| `Row.CompactSameLength` | auto-2048.py:26 | compacting that keeps the length returns the row |
| `Row.FullSlideUnchanged` | auto-2048.py:24-35 | a four-cell row that slides to four tiles comes back unchanged |
| `Row.NonEmptySlide` | auto-2048.py:24-35 | a row holding a tile slides to a row whose first cell is a tile |
| `Row.MergeKeepsTiles` | auto-2048.py:28-34 | if every input is 0 or a power of two of at least 2, so is every merged value |
| `Row.SlideRowKeepsTiles` | auto-2048.py:24-35 | sliding keeps every cell 0 or a power of two of at least 2 |
| `MoveEngine.LeftGrid` | auto-2048.py:45-53 | the board `left` leaves: row i is `move_row_left` of row i, a 4x4 board |
| `MoveEngine.RightGrid` | auto-2048.py:55-62 | the board `right` leaves: each row reversed, moved left, reversed back |
| `MoveEngine.UpGrid` | auto-2048.py:64-69 | the board `up` leaves: rotated counter-clockwise, moved left, rotated clockwise |
| `MoveEngine.DownGrid` | auto-2048.py:71-76 | the board `down` leaves: rotated clockwise, moved left, rotated counter-clockwise |
| `MoveEngine.Apply` | auto-2048.py:157-172 | the board the move of one key leaves, always a 4x4 board |
| `MoveEngine.ReverseRows` | auto-2048.py:57-61 | the board the two `board[r] = board[r][::-1]` loops of `right` leave: every row reversed, still a 4x4 board |
| `MoveEngine.ReverseRowsTwice` | auto-2048.py:57-61 | reversing every row twice gives the board back |
| `MoveEngine.LegalMoves` | auto-2048.py:156-176 | the keys whose move returns true, that is the directions whose move changes the board (`LegalMovesMeaning` states this for each direction) |
| `MoveEngine.UpSlidesColumns` | auto-2048.py:64-69 | `up` slides every column toward the top row: cell (i, j) of the result is cell i of the slid column j |
| `MoveEngine.DownSlidesColumns` | auto-2048.py:71-76 | `down` slides every column toward the bottom row: column j of the result is the reverse of the slid reversed column |
| `MoveEngine.ApplyLines` | auto-2048.py:45-76 | for every direction, each line of the new board, read in the direction of travel, is that line of the old board slid |
| `MoveEngine.CellOnLine` | auto-2048.py:45-76 | every cell of the board lies on one line of each direction, at a known place |
| `MoveEngine.LinesCoverBoard` | auto-2048.py:45-76 | two boards with the same lines in one direction are equal |
| `MoveEngine.MoveStaysIff` | auto-2048.py:45-76 | a move leaves the board unchanged exactly when every line it slides is settled |
| `MoveEngine.ApplyKeepsTiles` | auto-2048.py:24-76 | every move keeps every cell 0 or a power of two of at least 2 |
| `MoveEngine.Board.constructor` | auto-2048.py:148-153 | the new board object holds a copy of the cells it is given |
| `MoveEngine.Board.Left` | auto-2048.py:45-53 | every row is replaced by `move_row_left` of it, and the flag is true exactly when the board changed |
| `MoveEngine.Board.ReverseEachRow` | auto-2048.py:57-58 | every row is replaced by its reverse |
| `MoveEngine.Board.Right` | auto-2048.py:55-62 | the board becomes reverse, slide left, reverse of the old board, and the flag is true exactly when it changed |
| `MoveEngine.Board.Up` | auto-2048.py:64-69 | the board becomes clockwise(left(counter-clockwise(old))), and the flag is true exactly when it changed |
| `MoveEngine.Board.Down` | auto-2048.py:71-76 | the board becomes counter-clockwise(left(clockwise(old))), and the flag is true exactly when it changed |
| `MoveEngine.Board.Move` | auto-2048.py:157-172 | the key's move is applied, and the flag is true exactly when the board changed, that is when the direction is legal |
| `Terminal.Stuck` | auto-2048.py:78-88 | the condition under which `is_game_over` returns true: every cell occupied and different from the cell below it and the cell to its right |
| `Terminal.IsGameOver` | auto-2048.py:78-88 | reports true exactly when every cell is occupied and differs from its lower and right neighbours |
| `Terminal.GameOverSound` | auto-2048.py:78-88 | when `is_game_over` reports true, no direction changes the board |
| `Terminal.NoMoveStuckOrEmpty` | auto-2048.py:78-88 | when no direction changes the board, the board is stuck or empty |
| `Terminal.NoLegalMoveIff` | auto-2048.py:78-88 | no direction is legal exactly when the board is stuck or empty |
| `Terminal.EmptyBoardNotOver` | auto-2048.py:78-88 | on the empty board no move is legal, yet `is_game_over` reports false |
| `Terminal.NotEmptyAfter` | auto-2048.py:45-76 | a board holding a tile still holds one after any move |
| `Terminal.StuckLineFull` | auto-2048.py:78-88 | every line of a board `is_game_over` accepts is full |
| `Terminal.StuckAfterMeansSettled` | auto-2048.py:45-88 | if a move leaves a board `is_game_over` accepts, every line the move slid was already settled |
| `Terminal.LegalMoveKeepsPlaying` | auto-2048.py:45-88 | a move that changes the board leaves a board that is neither stuck nor empty, so some direction moves again |
| `Terminal.Check2048` | auto-2048.py:90-95 | true exactly when some cell holds 2048 |
| `Heuristic.PyIndex` | auto-2048.py:109 | Python's row index -4 .. 3 as a row 0 .. 3 denoting the same row modulo 4, so -1 is the last row |
| `Heuristic.LeftOf` | auto-2048.py:106 | the `left` neighbour: the cell before on the row, 0 on column 0 |
| `Heuristic.RightOf` | auto-2048.py:107 | the `right` neighbour: the cell after on the row, 0 on the last column |
| `Heuristic.UpOf` | auto-2048.py:108 | the `up` neighbour: the cell on the next row (`board[r + 1]`), 0 on the last row |
| `Heuristic.DownOf` | auto-2048.py:109 | the `down` neighbour: the cell on the previous row, which is the last row on row 0, and 0 on the last row |
| `Heuristic.Multiplier` | auto-2048.py:105-117 | the multiplier of one cell: 0 when empty, otherwise the last of the four tests that holds decides 1, 2, 3 or 6, and 0 when none holds |
| `Heuristic.CreatePoints` | auto-2048.py:100-118 | the cell-by-cell loop with its overriding tests fills every cell of a 4x4 matrix with that cell's multiplier |
| `Heuristic.MultiplierRange` | auto-2048.py:105-117 | every multiplier is 0, 1, 2, 3 or 6 |
| `Heuristic.EmptyCellWeighsNothing` | auto-2048.py:105 | an empty cell has multiplier 0 |
| `Heuristic.OccupiedZeroIff` | auto-2048.py:110-111 | an occupied cell has multiplier 0 exactly when all four tests of the first condition fail |
| `Heuristic.HorizontalIff` | auto-2048.py:112-113 | the multiplier is at least 2 exactly when the cell is occupied, `left < v` and `right > v` |
| `Heuristic.AllFourIff` | auto-2048.py:114-115 | the multiplier is 3 exactly when all four tests hold but not both vertical equalities |
| `Heuristic.PlateauIff` | auto-2048.py:116-117 | the multiplier is 6 exactly when `left < v`, `right > v`, `up == v` and `down == v` on an occupied cell |
| `Heuristic.VerticalNeighbourQuirks` | auto-2048.py:108-109 | on row 0 `down` is the last row's cell; on the last row `up` and `down` are 0; elsewhere `up` is the row below |
| `Heuristic.LastRowPositiveWeighs` | auto-2048.py:108-111 | on the last row every positive tile has multiplier at least 1 |
| `Heuristic.LoneTileWeighsOne` | auto-2048.py:97-111 | a lone 2048 tile has multiplier 1, so its normalised entry is 2048 / 2048 = 1 |
| `Lookahead.HasMove` | auto-2048.py:159 | the condition under which `max(... .values())` of a deeper search does not raise: a returned score map with at least one entry |
| `Lookahead.MaxAmong` | auto-2048.py:159 | the maximum of the listed keys' scores is one of those scores and at least every one of them |
| `Lookahead.MaxScore` | auto-2048.py:159 | `max(m.values())` of a non-empty map is one of its values and at least every value |
| `Lookahead.Search` | auto-2048.py:145-178 | a result that is returned is a bare score exactly at depth 0 (`SearchAtDepthZero`: the board's score) |
| `Lookahead.MoveScore` | auto-2048.py:158-176 | the score of one legal direction: the moved board's score, plus at depth 2 or more the highest score one level deeper |
| `Lookahead.EvaluateFutureStates` | auto-2048.py:145-178 | the loop over copies of the board, with its recursive calls, returns exactly what `Search` gives, the modelled error path included |
| `Lookahead.ScoresComplete` | auto-2048.py:156-178 | once every direction is tried without error, the scores gathered are the search's result |
| `Lookahead.SearchAtDepthOne` | auto-2048.py:156-178 | at depth 1 each legal direction scores the board its move gives, and nothing raises |
| `Lookahead.SearchKeys` | auto-2048.py:148-178 | at depth 1 or more a returned result's keys are exactly the directions whose move changes the board |
| `Lookahead.StuckBoardGivesNoMove` | auto-2048.py:148-178 | on a stuck board the search returns an empty score map at every depth from 1 |
| `Lookahead.SearchRaisesIff` | auto-2048.py:156-176 | the search raises exactly when some line of at most depth-1 legal moves ends on a board where no direction moves |
| `Lookahead.SearchNeverRaises` | auto-2048.py:156-176 | on a 4x4 board the search never raises, at any depth |
| `Lookahead.NoDeadEnd` | auto-2048.py:156-176 | no line of legal moves runs into a board where no direction moves |
| `Lookahead.FilterKeys` | auto-2048.py:156 | the kept directions are exactly the listed ones that are keys, and no direction comes twice when none was listed twice |
| `Lookahead.Insert` | auto-2048.py:212 | the result holds the sorted list plus the new entry, as a multiset |
| `Lookahead.InsertDescending` | auto-2048.py:212 | inserting into a list in descending score order keeps it in that order |
| `Lookahead.SortByScore` | auto-2048.py:212 | the sorted list is a permutation of its input |
| `Lookahead.SortByScoreDescending` | auto-2048.py:212 | the sorted list is in descending score order |
| `Lookahead.SortHeadIsEarliestBest` | auto-2048.py:212 | the sorted list starts with the earliest input entry of the highest score |
| `Lookahead.EntryOrder` | auto-2048.py:156-176 | the keys of the score map in the order 'w', 'a', 's', 'd' in which the loop enters them: every key once and nothing else; the sort at line 212 keeps this order for ties |
| `Lookahead.RankMoves` | auto-2048.py:212 | the candidates are a permutation of the keys in entry order, in descending score order, and the first has the highest score |
| `Lookahead.RankMovesPrefersEarliest` | auto-2048.py:212 | ties go to the direction entered first in the order 'w', 'a', 's', 'd' |
| `Lookahead.TryInOrder` | auto-2048.py:214-229 | a move is made exactly when some candidate is legal; then the first legal candidate is applied, otherwise the board is unchanged |
| `Lookahead.MakeBestMove` | auto-2048.py:206-229 | a result is always returned, since the search cannot raise; false is returned exactly when no direction is legal; true is returned after applying the best-ranked direction, whose score is the highest, and the board changes |

## Left out

- `add_random_tile` and `init_board` (auto-2048.py:4-16) draw from a random number generator. They are not modelled.
- `print_board`, every `print` and `main` (auto-2048.py:18-22, 231-250) are console I/O and the driver loop. They are not modelled.
- `normalize` and `get_points` (auto-2048.py:97-98, 120-131) compute in floating point. The heuristic is modelled as the integer multiplier k of each cell; the source stores `normalize(k * v)`. The search takes the position score as a parameter `points` over exact reals, so rounding is not modelled.
- The default arguments `depth=1` and `lookahead=1` (auto-2048.py:133, 181, 195) are not modelled: Dafny has no default arguments, and every call passes the depth.
- `evaluate_moves_with_lookahead` (auto-2048.py:181-192) only forwards to `evaluate_future_states`. `MakeBestMove` calls `EvaluateFutureStates` directly.
- Lookahead.MakeBestMove: requires a lookahead of at least 1. With lookahead 0 the source's search returns a float. `make_best_move_with_lookahead` then returns false when the float is 0 and fails on `.items()` otherwise; that case is not modelled.
- Lookahead.RankMoves: states the keys and the descending score order, and `RankMovesPrefersEarliest` gives the tie order of the first entry. The tie order of the later entries (Python's sort is stable) is not stated. `TryInOrder` tries every candidate in order, but the first candidate is always legal, so `MakeBestMove` only ever applies the first.
- Lookahead.EvaluateFutureStates: takes the board as a value, so the caller's board cannot change. The aliasing of Python's row lists (`row[:]` copies) is not modelled.
- The cost of the depth-12 search in `main` is a performance concern, not behaviour. It is not modelled.
- Python integers are unbounded, and so are Dafny's; there is no overflow to model.
