# Minesweeper game logic in Dafny

A model of the game logic of the terminal Minesweeper in
`src/minesweeper/minesweeper.py`, with proofs of its properties. The model
covers:

- the spreadsheet-style column labels (`int_to_letters`, `letters_to_int`);
- the move-prompt parser (`get_position` without its console loop);
- the board-size validation of `get_mapinfo`;
- the mine generator `init_map`, with its random permutation as a parameter;
- the value grid `get_value`;
- the visibility update `update_visible`, with its flood reveal;
- the end check `check_end`;
- one move of `run_game`, and the transitions between the size prompt, the
  move prompt and the play-again prompt.

Grids are immutable `seq<seq<_>>` values. The visibility states Hidden,
Revealed and Flagged stand for the program's 0, 1 and -1. Integers are
unbounded. The program uses numpy `int8` arrays, but every value it stores
lies between -1 and 9, so no wrap-around arises.

Modules, one per file:

| file | module | what it holds |
|---|---|---|
| grid.dfy | `Options`, `Grid` | optional values; positions, rectangular grids, the 8-neighbourhood |
| counting.dfy | `Counting` | integer intervals and the set-cardinality facts the generator proofs need |
| columns.dfy | `Columns` | the column-label codec |
| command.dfy | `Command` | the move-prompt grammar and parser |
| setup.dfy | `Setup` | the board-size check |
| board.dfy | `Board` | the mine generator, as written and with the neighbourhood clipped |
| values.dfy | `Values` | the value grid |
| visibility.dfy | `Visibility` | the flag and reveal move, the flood reveal as a worklist method and as a closure |
| game.dfy | `Game` | the end check, one move of a round, the prompt-to-prompt transitions |

The three library routines the program calls are stated by their
definitions:

- `scipy.ndimage.convolve` with a 3x3 kernel of ones and zero padding becomes
  a nine-term window sum.
- `scipy.ndimage.label` with 8-connectivity becomes reachability along paths
  of zero-valued cells.
- The dilation by one cell becomes "within one step of a cell of the
  component".

The flood reveal is computed by a worklist method, `Visibility.Component`. It
is proved equal to the reachability definition.

Where the program's code and a natural reading of the game's rules differ, the
model follows the code:

- **Flags are revealed by the flood.** The flood reveal writes Revealed over
  every cell of the closure, Flagged cells included (line 278). Nothing
  protects a flag inside the closure.
- **A revealed mine blocks a win.** The win test (line 305) requires every
  cell to be Revealed exactly when it is not a mine. During play this is the
  same as "every mine-free cell is revealed", because no mine is ever
  revealed without losing first. `Game.MoveKeepsMinesHidden` and the last
  ensures of `Game.Step` prove this, and `Game.WonIffSafeCellsRevealed`
  states the equivalence.
- **The generator can place fewer mines than asked.** The generator excludes
  nine flattened indices (lines 160-164). At the left and right edges these
  wrap into neighbouring rows, so fewer mines may be placed than requested.
  See "## Findings".

## Model

| member | source | states |
|---|---|---|
| Columns.IntToLetters | src/minesweeper/minesweeper.py:63-104 | a label is non-empty exactly when the number is at least 1 and is upper case; decoding the label of any n >= 1 gives n back, so the 0-based column read back is n - 1 |
| Columns.LettersToInt | src/minesweeper/minesweeper.py:85-104 | the right-to-left loop of powers of 26 computes the most-significant-first label value minus one |
| Columns.LabelOfLetterValue | src/minesweeper/minesweeper.py:63-104 | encoding the value of a non-empty upper-case label gives the label back, so labels and positive numbers are in bijection |
| Columns.LetterValuePositive | src/minesweeper/minesweeper.py:97-104 | a non-empty label of letters denotes at least 1, so its column index is never negative |
| Columns.CaseInsensitive | src/minesweeper/minesweeper.py:97-104 | a label, its upper-case form and its lower-case form decode to the same column |
| Columns.CodecExamples | src/minesweeper/minesweeper.py:63-104 | A is column 0, Z is column 25, AA is column 26, and 27 is labelled AA |
| Command.Split | src/minesweeper/minesweeper.py:341-345 | the split into letters, digits and flag suffix is a full match of the pattern, and it is the only one; no split means no match |
| Command.MatchIsSplit | src/minesweeper/minesweeper.py:341-345 | any full match has its groups exactly where the longest letter run and the following digit run put them |
| Command.Parse | src/minesweeper/minesweeper.py:332-355 | only the exact strings Q/q, R/r and H/h are commands; otherwise a full match gives Move(digits - 1, column index, suffix present) when on the board and OutOfRange when not; no match gives Invalid |
| Command.MoveIsOnBoard | src/minesweeper/minesweeper.py:352-353 | every Move returned names a cell on the board |
| Command.ParseFlagExample | src/minesweeper/minesweeper.py:341-353 | "c3f" on a 5 x 4 board is a flag move on row 2, column 2 |
| Command.ParseWideExample | src/minesweeper/minesweeper.py:341-353 | "AA10" on a 30 x 10 board is a reveal on row 9, column 26 |
| Command.ParseRejectExamples | src/minesweeper/minesweeper.py:332-355 | "a0" is out of range, while "zz" and "qq" are invalid |
| Command.LettersOnlyNeverMatch | src/minesweeper/minesweeper.py:341-343 | a string of letters alone never matches the position pattern |
| Setup.CheckSize | src/minesweeper/minesweeper.py:192-201 | the dimension diagnostic comes first, then "at least one mine", then "too many mines"; a size is accepted exactly when both dimensions are in 1..100, mines >= 1, 2 * mines < width * height and mines + 3 * min(3, width, height) <= width * height |
| Board.InitMap | src/minesweeper/minesweeper.py:158-169 | for every permutation of the eligible indices, no board cell within one step of the first click gets a mine; a cell is a mine exactly when its index is among the first `mines` permutation entries, so min(mines, number of eligible indices) mines are placed |
| Board.NotChosenNearAvoid | src/minesweeper/minesweeper.py:160-164 | no index of a cell within one step of the first click is among the chosen ones |
| Board.NearIsAvoided | src/minesweeper/minesweeper.py:160-163 | every cell within one step of the first click is flattened to one of the nine avoided offsets |
| Board.PlaceMines | src/minesweeper/minesweeper.py:165-168 | with on-board indices, the mine cells are exactly the chosen indices |
| Board.PlacePrefix | src/minesweeper/minesweeper.py:164-168 | placing a prefix of a duplicate-free permutation puts one mine per entry |
| Board.GeneratorsAgreeInside | src/minesweeper/minesweeper.py:160-164 | when the click is not in the first or last column, the program's eligible indices are exactly the board minus the clipped 3 x 3 window |
| Board.SafeZoneExact | src/minesweeper/minesweeper.py:160-163 | a board index is in the clipped window exactly when its cell is within one step of the click |
| Board.SafeZoneSize | src/minesweeper/minesweeper.py:194 | the clipped window has at most 3 * min(3, width, height) cells, the margin the size check keeps free |
| Board.InitMapClipped | src/minesweeper/minesweeper.py:158-169 | the corrected generator also leaves every cell within one step of the click free of mines, and after an accepted size check it places exactly `mines` mines |
| Board.ClippedPlacesAll | src/minesweeper/minesweeper.py:164-169 | after an accepted size check, taking `mines` entries of a permutation of the clipped eligible set marks exactly `mines` cells |
| Board.NarrowBoardPlacesNoMine | src/minesweeper/minesweeper.py:160-164 | on an accepted 1 x 4 board with one mine and the first click on row 2, the program's generator places no mine, while the clipped window leaves a cell eligible |
| Values.ValueGrid | src/minesweeper/minesweeper.py:206-222 | a value is -1 exactly at mine cells; every other cell holds the number of mines among its on-board 8-neighbours, between 0 and 8 |
| Values.NeighboursAreNearCells | src/minesweeper/minesweeper.py:20 | the eight listed neighbours the count walks are exactly the cells of the 3 x 3 window other than its centre, each listed once |
| Values.WindowCountsNeighbours | src/minesweeper/minesweeper.py:220 | around a mine-free cell the zero-padded 3 x 3 sum is the neighbour mine count |
| Values.ZeroHasNoMineNear | src/minesweeper/minesweeper.py:220-221 | a cell of value 0 has no mine within one step, itself included |
| Values.NoMineNearIsZero | src/minesweeper/minesweeper.py:220-221 | conversely, a cell with no mine within one step has value 0 |
| Values.NoMinesAllZero | src/minesweeper/minesweeper.py:220-222 | on a mine-free board every value is 0 |
| Values.SingleMine | src/minesweeper/minesweeper.py:220-222 | with a single mine, exactly its neighbours have value 1 and every other free cell has value 0 |
| Visibility.Component | src/minesweeper/minesweeper.py:263-272 | the worklist search returns exactly the cells reachable from the start through 8-connected zero-valued cells |
| Visibility.UpdateVisible | src/minesweeper/minesweeper.py:225-282 | the move equals its definition: a flag move toggles the cell, a reveal on a Flagged cell does nothing, a reveal on a zero floods the dilated component, and any other reveal reveals the one cell |
| Visibility.FlagMove | src/minesweeper/minesweeper.py:248-256 | flagging turns Hidden into Flagged and Flagged into Hidden, leaves a Revealed grid as it is, and changes no other cell |
| Visibility.FlagTwice | src/minesweeper/minesweeper.py:248-256 | flagging the same cell twice restores the grid |
| Visibility.RevealFlagged | src/minesweeper/minesweeper.py:258-259 | revealing a Flagged cell leaves the grid unchanged |
| Visibility.RevealNonzero | src/minesweeper/minesweeper.py:280-282 | revealing an unflagged nonzero cell reveals it and changes no other cell |
| Visibility.StartInClosure | src/minesweeper/minesweeper.py:268-275 | a zero cell is in its own component and in its closure |
| Visibility.RevealZero | src/minesweeper/minesweeper.py:260-279 | revealing an unflagged zero cell reveals exactly the closure of its component, Flagged cells included, and keeps every other cell |
| Visibility.RevealIdempotent | src/minesweeper/minesweeper.py:257-282 | repeating a reveal on the same cell changes nothing more |
| Visibility.ClosureHasNoMine | src/minesweeper/minesweeper.py:260-279 | on a value grid derived from mines, the flood closure of a zero cell holds no mine |
| Game.CheckEnd | src/minesweeper/minesweeper.py:285-308 | Lost exactly when the moved-on cell is a Revealed mine; otherwise Won exactly when every cell is Revealed if and only if it is not a mine; otherwise Ongoing |
| Game.WonIffSafeCellsRevealed | src/minesweeper/minesweeper.py:303-306 | while no mine is revealed, Won holds exactly when every mine-free cell is revealed, whatever the state of the mines |
| Game.HidingSafeCellUndoesWin | src/minesweeper/minesweeper.py:303-308 | hiding one mine-free cell of a won grid makes the check report Ongoing |
| Game.RevealingMineLoses | src/minesweeper/minesweeper.py:258-304 | revealing an unflagged mine cell loses on that move |
| Game.MoveKeepsMinesHidden | src/minesweeper/minesweeper.py:225-308 | a move that does not lose leaves every mine cell unrevealed |
| Game.FirstClickIsZero | src/minesweeper/minesweeper.py:382-384 | with the board generated around the first click, that cell has value 0 |
| Game.ProgramFirstClickIsZero | src/minesweeper/minesweeper.py:158-222 | the same for the generator as written, wrap-around included |
| Game.Step | src/minesweeper/minesweeper.py:379-394 | the first move generates the board around the move with the clipped generator, lands on a 0 and never loses; later moves keep the mines; the new visibility is the updated grid, or all Revealed on a win; the end state is the check on the updated grid; a move that leaves the game Ongoing keeps every mine unrevealed |
| Game.FirstRevealFloods | src/minesweeper/minesweeper.py:382-387 | the first reveal of a round always floods |
| Game.EnterSize | src/minesweeper/minesweeper.py:192-201 | an accepted size starts a round with no board yet; anything else stays at the size prompt |
| Game.Turn | src/minesweeper/minesweeper.py:379-396 | q/Q quits, r/R returns to the size prompt, help and unusable input keep the state; a move on the cell it names keeps the size and any existing mine map, or builds the board around that cell on the first move, and applies the visibility update; play continues exactly when the end check gives neither result, a finished round is won exactly when the check says Won, a win reveals every cell, and a first move never ends in a loss |
| Game.PlayAgain | src/minesweeper/minesweeper.py:398-408 | y/Y starts over, n/N quits, any other answer asks again |

## Left out

- Console set-up through `ctypes` (lines 9-10): a foreign call with an environment side effect.
- The ANSI cell table, `clear_screen` and `draw_map` (lines 23-36, 56-60, 107-136): rendering only.
- The `input`/`print` loops (lines 184-203, 330-331, 398-408): console I/O. The model keeps their decisions: `Setup.CheckSize`, `Command.Parse` and `Game.PlayAgain`.
- The conversion of the size tokens with `int()` and its `ValueError` path (lines 185-191, 202-203): the model starts from three integers. Fewer than three tokens makes line 189-191 raise an uncaught `IndexError`. More than three tokens prints the mismatch message and still goes on with the first three. Both are console-input details and are not modelled.
- The exception classes used for control flow (lines 40-53, 395-410): they become the `Phase` enum and the `EndState` result.
- `np.random.permutation` (line 164): the permutation is a parameter, any duplicate-free sequence whose elements are exactly the eligible indices. Its uniformity is not modelled.
- `Game.Step`: the first move uses the corrected generator `Board.InitMapClipped`, not the program's wrap-around offsets. The as-written generator `Board.InitMap` and its properties are kept alongside it, and the two agree whenever the first click is not in the first or last column (`Board.GeneratorsAgreeInside`).
- `Game.Turn`: with the board already generated, a move may leave the state unchanged, for example revealing a Flagged cell. So "help and unusable input keep the state" is stated in one direction only.

## Findings

| source | as written | input that shows it | evidently intended | confidence | as-written member | corrected member |
|---|---|---|---|---|---|---|
| src/minesweeper/minesweeper.py:160-164 | the safe zone is the nine flattened offsets v-w-1 … v+w+1 around the click, not clipped to the row, so in the first and last column they wrap into cells of other rows | width 1, height 4, 1 mine (accepted by the size check), first click on row 2: the offsets cover indices -1 to 3, no index is eligible and no mine is placed, so the first click wins an empty board | exclude only the board cells within one step of the click; then the free margin 3 * min(3, width, height) of line 194 always leaves enough cells, and exactly `mines` mines are placed | not executed | Board.NarrowBoardPlacesNoMine | Board.InitMapClipped |
