# Connect Four rules engine, modelled in Dafny

This project models the `ConnectFour` game object of `src/ConnectFour.java`. The object holds a
6 x 7 board of cells and a flag saying whether X (player 1) moves next. Rows run from 0 at the top to 5 at
the bottom; columns run from 0 to 6. A move names a 1-based column. The token then falls to
the lowest blank cell of that column and the turn passes. The outcome is computed on demand. It is 1 or 2 for
the player whose four in a row is found first, 0 for a tie (no four and a full board) and -1 while the
game goes on.

Two files make up the model:

- `Rules.dfy` (module `Rules`) treats the board as a value (`seq<seq<Cell>>`). It holds the
  specification functions that the loops are proved against, and the lemmas that say what they mean:
  where a drop lands, that drops keep gravity, that a row or column scan reports exactly the player
  with four in a row, that the diagonal scan misses no diagonal, and what the winner computation
  reports. It also renders the board as text and reads it back.
- `Game.dfy` (module `Game`) holds the class `ConnectFour`. The board is an `array2<Cell>` that
  `MakeMove` updates in place, and `isXTurn` is a field. Every loop of the Java class is a method with
  loop invariants, proved equal to the function of `Rules` that specifies it. `Grid()` reads the array
  back as a board value.

Three points of the source's behaviour are kept as written:

- The row-and-column loop of `getWinner` runs `i` over the number of rows (6), so it checks
  columns 0 to 5 only. A vertical four in column index 6 is never reported as a win.
  `LastColumnFourIsMissed` exhibits such a board: it keeps gravity and is the position after the
  moves 7, 1, 7, 1, 7, 1, 7 from a new game. The model keeps this behaviour.
- The diagonal scan tests each anchor with `if / else if`: the down-right diagonal when it fits,
  otherwise the up-right one. A general description of the problem might expect both directions at
  every anchor. `DiagonalScanExhaustive` proves that the anchors the code uses still reach every
  diagonal of length four in all four directions.
- The source decides "column full" by scanning the column for a cell that is neither X nor O. Checking
  only the top cell would give the same answer, but only on boards that keep gravity (`FullIffTopOccupied`).

The integer codes are the source's own: `PLAYER_1 = 1`, `PLAYER_2 = 2`, `TIE = 0`, and
`GAME_IS_OVER`, `GAME_NOT_OVER` and `COLUMN_FULL` all equal to -1.

## Model

| member | source | states |
|---|---|---|
| `Rules.EmptyBoard` | src/ConnectFour.java:22-27 | the new board is well formed and every cell is blank |
| `Game.ConnectFour.constructor` | src/ConnectFour.java:21-29 | a new game has an all-blank board (which satisfies gravity) and X to move |
| `Rules.LowestFrom` | src/ConnectFour.java:120-127 | scanning upward from a row, the result is the first row whose cell is blank, with every cell below it up to the start holding a token; the result is -1 exactly when all scanned cells hold tokens |
| `Rules.LowestEmpty` | src/ConnectFour.java:120-127 | the landing row of a column is the largest row with a blank cell; it is -1 (`COLUMN_FULL`) exactly when all six cells hold tokens |
| `Game.ConnectFour.GetLowestRow` | src/ConnectFour.java:120-127 | the downward loop over rows returns the landing row of the column (`LowestEmpty`) |
| `Rules.FullIffTopOccupied` | src/ConnectFour.java:109-110 | on a board with gravity, a column is full exactly when its row-0 cell is occupied |
| `Rules.Drop` | src/ConnectFour.java:106-113 | a column outside [1, 7] fails with InvalidColumn; a column with no blank cell fails with ColumnFull; otherwise only one cell changes: the column's lowest blank cell, which now holds the token |
| `Game.ConnectFour.Place` | src/ConnectFour.java:106-113 | the in-place move rejects exactly as `Drop` does and leaves the board unchanged; on success the board becomes `Drop`'s board |
| `Game.ConnectFour.MakeMove` | src/ConnectFour.java:88-94 | the current player's token (X on X's turn, else O) is dropped; a rejected move changes neither board nor turn; a successful one changes the board as `Drop` says and flips `isXTurn` exactly once; gravity is preserved |
| `Rules.CurrentToken` | src/ConnectFour.java:88 | the token moved is never blank and belongs to player 1 on X's turn, player 2 otherwise |
| `Rules.DropKeepsGravity` | src/ConnectFour.java:109-112 | a successful drop on a board with gravity yields a board with gravity: every cell below an occupied cell is occupied |
| `Rules.DropStacksUp` | src/ConnectFour.java:109-112 | on a board with gravity, each successful drop raises the landing row of that column by one, so the drop after the one that lands in row 0 fails with ColumnFull |
| `Rules.LineFoursExclusive` | src/ConnectFour.java:156-216 | a row or column of at most seven cells cannot hold both an X four and an O four |
| `Rules.LineWinner` | src/ConnectFour.java:156-216 | a line's result is 1 exactly when it has four consecutive X, 2 exactly when it has four consecutive O, and -1 exactly when it has neither |
| `Game.ConnectFour.GetRowWinner` | src/ConnectFour.java:156-183 | the loop with its `consecutive` and `player` counters returns 1, 2 or -1 exactly as `LineWinner` of that row |
| `Game.ConnectFour.GetColWinner` | src/ConnectFour.java:189-216 | the loop with its `consecutive` and `player` counters returns 1, 2 or -1 exactly as `LineWinner` of that column |
| `Rules.AnchorWinner` | src/ConnectFour.java:223-241 | the test at one anchor returns 1 or 2 exactly when that player's four lies on the diagonal it checks; that is down-right for anchors in rows 0..2 and columns 0..3, and up-right for anchors in rows 3..5 and columns 0..3; four equal blank cells give -1 |
| `Rules.DiagFromMeaning` | src/ConnectFour.java:220-245 | resumed at an anchor, the scan returns a player only if some later anchor holds that player's four, and -1 exactly when no later anchor holds a four |
| `Rules.DiagonalScanExhaustive` | src/ConnectFour.java:220-245 | the scanned anchors cover every diagonal four on the board, in all four diagonal directions, and cover nothing else |
| `Rules.DiagWinnerMeaning` | src/ConnectFour.java:220-245 | the diagonal scan reports a player only if that player has a diagonal four, and -1 exactly when neither player has one |
| `Game.ConnectFour.GetDiagWinner` | src/ConnectFour.java:220-245 | the nested anchor loops return what the first anchor in row-major order with a four gives (`DiagWinner`) |
| `Game.ConnectFour.CheckTie` | src/ConnectFour.java:250-257 | the tie check returns 0 exactly when every cell holds a token, and -1 otherwise |
| `Rules.WinnerFromMeaning` | src/ConnectFour.java:133-149 | resumed at loop index i, the winner computation reports a player only if that player has a four in row a, column a (i <= a <= 5) or a diagonal. It reports 0 exactly when no such four exists and the board is full, and -1 exactly when no such four exists and a cell is blank |
| `Rules.WinnerMeaning` | src/ConnectFour.java:132-150 | the outcome is 1, 2, 0 or -1. A reported player has a four in a row, in column 0..5 or on a diagonal. A player who alone has such a four is reported. 0 means no such four and a full board; -1 means no such four and a blank cell |
| `Game.ConnectFour.GetWinner` | src/ConnectFour.java:132-150 | row i and then column i for i = 0..5, then the diagonals, then the tie check, return the outcome `Winner` |
| `Rules.LastColumnFourIsMissed` | src/ConnectFour.java:133-143 | there is a board with gravity where X has four in a row down column index 6, yet the outcome is -1 (game not over) |
| `Game.ConnectFour.GetNextPlayer` | src/ConnectFour.java:67-73 | returns -1 (`GAME_IS_OVER`) when the outcome is anything but -1; otherwise returns 1 on X's turn and 2 on O's turn |
| `Game.ConnectFour.ToString` | src/ConnectFour.java:52-62 | the nested loops build the text `Render` of the board |
| `Rules.RenderRoundTrip` | src/ConnectFour.java:52-62 | the text is six lines of 30 characters. Each line starts with a vertical bar and ends with a newline. Reading back the character printed for each cell gives the board itself |

## Left out

- `makeMove(Scanner)`: reading the column from a `Scanner`, the `"Column? (1-7) "` prompt and the null-Scanner exception are terminal I/O. `MakeMove` takes the column as an `int` instead.
- `instructions()`: constant display text.
- `isGameOver()` belongs to the superclass `AbstractStrategyGame`, which is not part of this model. `GetNextPlayer` assumes it means `getWinner() != -1`.
- The superclass and any driver loop (`main`) are not part of this model.
- Exceptions are modelled as results. A rejected move returns `Rejected(InvalidColumn)` or `Rejected(ColumnFull)` instead of throwing `IllegalArgumentException`, and the exception messages are not modelled.
- A Java `char[][]` cell could hold any character. The model's `Cell` has only blank, X and O, the only three values the class ever writes.
- The Java board is an array of row arrays; the model uses one two-dimensional array. The board is private and its rows are never shared, so no aliasing is lost.
- Gravity is not a precondition of the queries, because the source's queries work on any board. It is proved of every board the constructor and `MakeMove` produce.
- `Game.ConnectFour.GetNextPlayer`, `GetWinner` and the other queries declare no `modifies` clause, so Dafny forbids them to change the board or the turn. That purity is enforced by the frame, not stated as an `ensures`.
- `LastColumnFourIsMissed` shows that its board keeps gravity. It does not prove that replaying the moves 7, 1, 7, 1, 7, 1, 7 through `Drop` yields that board, because unfolding `Drop` seven times over a whole board is too costly for the solver.
