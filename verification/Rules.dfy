/**
 * Pure rules of Connect Four on the fixed 6 x 7 board of src/ConnectFour.java.
 *
 * A board is a value here: a sequence of six rows of seven cells, row 0 at the
 * top.  The class in Game.dfy keeps the board in an array and proves each of
 * its loops against the functions below; the lemmas in this module say what
 * those functions mean (who has four in a row, which cell a drop fills, why
 * the diagonal scan misses nothing and why column index 6 is never scanned
 * vertically).
 */
module Rules {

  /** A cell of the board: blank (' '), Player 1's token ('X') or Player 2's token ('O'). */
  datatype Cell = Empty | X | O

  type Board = seq<seq<Cell>>

  const ROWS: int := 6
  const COLS: int := 7

  // The integer codes of the source.  Three different sentinels share -1.
  const PLAYER_1: int := 1
  const PLAYER_2: int := 2
  const TIE: int := 0
  const EMPTY: int := 0
  const GAME_IS_OVER: int := -1
  const GAME_NOT_OVER: int := -1
  const COLUMN_FULL: int := -1

  /** The two kinds of failed move (both an IllegalArgumentException in the source). */
  datatype MoveError = InvalidColumn | ColumnFull

  /** Outcome of dropping a token: the new board, or the reason the move was refused. */
  datatype DropResult = Dropped(board: Board) | Failed(reason: MoveError)

  predicate WellFormed(g: Board)
  {
    |g| == ROWS && forall r :: 0 <= r < |g| ==> |g[r]| == COLS
  }

  /** Two well-formed boards with the same cells are the same board. */
  lemma SameCells(g1: Board, g2: Board)
    requires WellFormed(g1) && WellFormed(g2)
    requires forall r, c :: 0 <= r < ROWS && 0 <= c < COLS ==> g1[r][c] == g2[r][c]
    ensures g1 == g2
  {
    forall r | 0 <= r < ROWS
      ensures g1[r] == g2[r]
    {
      assert forall c :: 0 <= c < COLS ==> g1[r][c] == g2[r][c];
    }
  }

  /** The token a player code stands for (1 is X, 2 is O). */
  function TokenOf(player: int): Cell
  {
    if player == PLAYER_1 then X else if player == PLAYER_2 then O else Empty
  }

  /** The player code a token stands for. */
  function PlayerOf(t: Cell): int
  {
    match t
    case X => PLAYER_1
    case O => PLAYER_2
    case Empty => EMPTY
  }

  /** The board a new game starts with: every cell blank. */
  function EmptyBoard(): (g: Board)
    ensures WellFormed(g)
    ensures forall r, c :: 0 <= r < ROWS && 0 <= c < COLS ==> g[r][c] == Empty
  {
    seq(ROWS, _ => seq(COLS, _ => Empty))
  }

  /** Column c of the board read from the top row down. */
  function Column(g: Board, c: int): (col: seq<Cell>)
    requires WellFormed(g) && 0 <= c < COLS
    ensures |col| == ROWS
    ensures forall r :: 0 <= r < ROWS ==> col[r] == g[r][c]
  {
    seq(ROWS, r requires 0 <= r < ROWS => g[r][c])
  }

  // ---------------------------------------------------------------------------
  // Four in a row along one line (a row or a column)
  // ---------------------------------------------------------------------------

  /** Cells k .. k+3 of the line all hold token t. */
  predicate FourAt(s: seq<Cell>, k: int, t: Cell)
  {
    0 <= k && k + 4 <= |s| && s[k] == t && s[k + 1] == t && s[k + 2] == t && s[k + 3] == t
  }

  ghost predicate HasFour(s: seq<Cell>, t: Cell)
  {
    exists k :: FourAt(s, k, t)
  }

  /**
   * A line of at most seven cells cannot hold four X's in a row and four O's in a row:
   * two windows of four in seven cells always share a cell.
   */
  lemma {:induction false} LineFoursExclusive(s: seq<Cell>)
    requires |s| <= COLS
    ensures !(HasFour(s, X) && HasFour(s, O))
  {
  }

  /**
   * The answer of a row or column scan: the player who has four in a row on the
   * line, or GAME_NOT_OVER.  The scan cannot meet both players (LineFoursExclusive),
   * so the order of the two tests is immaterial.
   */
  ghost function LineWinner(s: seq<Cell>): (w: int)
    requires |s| <= COLS
    ensures w == PLAYER_1 <==> HasFour(s, X)
    ensures w == PLAYER_2 <==> HasFour(s, O)
    ensures w == GAME_NOT_OVER <==> !HasFour(s, X) && !HasFour(s, O)
  {
    LineFoursExclusive(s);
    if HasFour(s, X) then PLAYER_1 else if HasFour(s, O) then PLAYER_2 else GAME_NOT_OVER
  }

  // ---------------------------------------------------------------------------
  // Gravity: where a dropped token lands
  // ---------------------------------------------------------------------------

  /**
   * Scanning column c upward from row `row`, the first row whose cell is neither X
   * nor O, or COLUMN_FULL when rows 0 .. row all hold tokens.
   */
  function LowestFrom(g: Board, c: int, row: int): (r: int)
    requires WellFormed(g) && 0 <= c < COLS && -1 <= row < ROWS
    ensures -1 <= r <= row
    ensures r == COLUMN_FULL <==> forall i :: 0 <= i <= row ==> g[i][c] != Empty
    ensures r >= 0 ==> g[r][c] == Empty && forall i :: r < i <= row ==> g[i][c] != Empty
    decreases row + 1
  {
    if row < 0 then COLUMN_FULL
    else if g[row][c] != X && g[row][c] != O then
      assert g[row][c].Empty?;
      row
    else LowestFrom(g, c, row - 1)
  }

  /**
   * The row a token dropped into column c lands in: the largest row index whose
   * cell is blank, or COLUMN_FULL when all six cells hold tokens.
   */
  function LowestEmpty(g: Board, c: int): (r: int)
    requires WellFormed(g) && 0 <= c < COLS
    ensures -1 <= r < ROWS
    ensures r == COLUMN_FULL <==> forall i :: 0 <= i < ROWS ==> g[i][c] != Empty
    ensures r >= 0 ==> g[r][c] == Empty && forall i :: r < i < ROWS ==> g[i][c] != Empty
  {
    LowestFrom(g, c, ROWS - 1)
  }

  /** Gravity: every cell below an occupied cell is occupied. */
  predicate Gravity(g: Board)
    requires WellFormed(g)
  {
    forall r, c {:trigger g[r][c]} :: 0 <= r < ROWS - 1 && 0 <= c < COLS && g[r][c] != Empty ==> g[r + 1][c] != Empty
  }

  lemma {:induction false} OccupiedBelow(g: Board, c: int, r: int)
    requires WellFormed(g) && Gravity(g) && 0 <= c < COLS && 0 <= r < ROWS
    requires g[r][c] != Empty
    ensures forall i :: r <= i < ROWS ==> g[i][c] != Empty
    decreases ROWS - r
  {
    if r < ROWS - 1 {
      OccupiedBelow(g, c, r + 1);
    }
  }

  /** Under gravity a column is full exactly when its top cell (row 0) is occupied. */
  lemma {:induction false} FullIffTopOccupied(g: Board, c: int)
    requires WellFormed(g) && Gravity(g) && 0 <= c < COLS
    ensures LowestEmpty(g, c) == COLUMN_FULL <==> g[0][c] != Empty
  {
    if g[0][c] != Empty {
      OccupiedBelow(g, c, 0);
    }
  }

  // ---------------------------------------------------------------------------
  // Dropping a token
  // ---------------------------------------------------------------------------

  /** g2 is g with the one cell (row, col) now holding t. */
  predicate OnlyCellChanged(g: Board, g2: Board, row: int, col: int, t: Cell)
    requires WellFormed(g) && WellFormed(g2)
  {
    0 <= row < ROWS && 0 <= col < COLS && g2[row][col] == t &&
    forall r, c :: 0 <= r < ROWS && 0 <= c < COLS && (r != row || c != col) ==> g2[r][c] == g[r][c]
  }

  /**
   * Drop token t into the 1-based column `column`: refused with InvalidColumn outside
   * [1, 7] and with ColumnFull when no cell of the column is blank; otherwise exactly one
   * cell changes, the lowest blank cell of the column, which now holds t.
   */
  function Drop(g: Board, column: int, t: Cell): (res: DropResult)
    requires WellFormed(g)
    ensures res == Failed(InvalidColumn) <==> column < 1 || column > COLS
    ensures res == Failed(ColumnFull) <==>
      1 <= column <= COLS && forall i :: 0 <= i < ROWS ==> g[i][column - 1] != Empty
    ensures res.Dropped? ==>
      1 <= column <= COLS && WellFormed(res.board) &&
      var row := LowestEmpty(g, column - 1);
      0 <= row && g[row][column - 1] == Empty && OnlyCellChanged(g, res.board, row, column - 1, t)
  {
    if column < 1 || column > COLS then Failed(InvalidColumn)
    else if LowestEmpty(g, column - 1) == COLUMN_FULL then Failed(ColumnFull)
    else
      var row := LowestEmpty(g, column - 1);
      Dropped(g[row := g[row][column - 1 := t]])
  }

  /** A successful drop keeps gravity: the new token rests on tokens or on the floor. */
  lemma {:induction false} DropKeepsGravity(g: Board, column: int, t: Cell)
    requires WellFormed(g) && t != Empty && Gravity(g)
    requires Drop(g, column, t).Dropped?
    ensures Gravity(Drop(g, column, t).board)
  {
    var g2 := Drop(g, column, t).board;
    var row := LowestEmpty(g, column - 1);
    forall r, c {:trigger g2[r][c]} | 0 <= r < ROWS - 1 && 0 <= c < COLS && g2[r][c] != Empty
      ensures g2[r + 1][c] != Empty
    {
      if c == column - 1 && r + 1 == row {
        // the cell just above the landing cell was blank and is unchanged
        assert false;
      }
    }
  }

  /**
   * Under gravity, each successful drop into a column moves that column's landing row up
   * by one; after the drop that lands in row 0 the column is full.
   */
  lemma {:induction false} DropStacksUp(g: Board, column: int, t: Cell)
    requires WellFormed(g) && t != Empty && Gravity(g)
    requires Drop(g, column, t).Dropped?
    ensures LowestEmpty(Drop(g, column, t).board, column - 1) == LowestEmpty(g, column - 1) - 1
  {
    var g2 := Drop(g, column, t).board;
    var c, row := column - 1, LowestEmpty(g, column - 1);
    if row > 0 {
      // the cell above the landing cell is blank, or the landing cell would not be
      assert g[row - 1][c] == Empty;
      assert g2[row - 1][c] == Empty;
    }
    assert forall i :: row <= i < ROWS ==> g2[i][c] != Empty;
  }

  // ---------------------------------------------------------------------------
  // Diagonals
  // ---------------------------------------------------------------------------

  /** Four equal tokens t from anchor (i, j) going down and to the right. */
  predicate DownRightFour(g: Board, i: int, j: int, t: Cell)
    requires WellFormed(g) && 0 <= i && i + 3 < ROWS && 0 <= j && j + 3 < COLS
  {
    g[i][j] == t && g[i + 1][j + 1] == t && g[i + 2][j + 2] == t && g[i + 3][j + 3] == t
  }

  /** Four equal tokens t from anchor (i, j) going up and to the right. */
  predicate UpRightFour(g: Board, i: int, j: int, t: Cell)
    requires WellFormed(g) && 3 <= i < ROWS && 0 <= j && j + 3 < COLS
  {
    g[i][j] == t && g[i - 1][j + 1] == t && g[i - 2][j + 2] == t && g[i - 3][j + 3] == t
  }

  /**
   * What the diagonal scan tests at anchor (i, j): the down-right diagonal when it fits
   * on the board, otherwise the up-right diagonal when that fits.
   */
  predicate AnchorFour(g: Board, i: int, j: int, t: Cell)
    requires WellFormed(g)
  {
    t != Empty && 0 <= i < ROWS && 0 <= j < COLS &&
    if i + 3 < ROWS && j + 3 < COLS then DownRightFour(g, i, j, t)
    else i - 3 >= 0 && j + 3 < COLS && UpRightFour(g, i, j, t)
  }

  /**
   * The test of the diagonal scan at one anchor, with the source's if / else-if: the
   * code of the player owning the four cells, or GAME_NOT_OVER (also when the four
   * cells are equal but blank).
   */
  function AnchorWinner(g: Board, i: int, j: int): (w: int)
    requires WellFormed(g) && 0 <= i < ROWS && 0 <= j < COLS
    ensures w == PLAYER_1 <==> AnchorFour(g, i, j, X)
    ensures w == PLAYER_2 <==> AnchorFour(g, i, j, O)
    ensures w == GAME_NOT_OVER <==> !AnchorFour(g, i, j, X) && !AnchorFour(g, i, j, O)
  {
    if i + 3 < ROWS && j + 3 < COLS then
      if g[i][j] == g[i + 1][j + 1] && g[i][j] == g[i + 2][j + 2] && g[i][j] == g[i + 3][j + 3] then
        (if g[i][j] == X then PLAYER_1 else if g[i][j] == O then PLAYER_2 else GAME_NOT_OVER)
      else GAME_NOT_OVER
    else if i - 3 >= 0 && j + 3 < COLS then
      if g[i][j] == g[i - 1][j + 1] && g[i][j] == g[i - 2][j + 2] && g[i][j] == g[i - 3][j + 3] then
        (if g[i][j] == X then PLAYER_1 else if g[i][j] == O then PLAYER_2 else GAME_NOT_OVER)
      else GAME_NOT_OVER
    else GAME_NOT_OVER
  }

  /** Anchor (a, b) is on the board and comes at or after (i, j) in row-major scan order. */
  predicate AtOrAfter(i: int, j: int, a: int, b: int)
  {
    0 <= a < ROWS && 0 <= b < COLS && (a > i || (a == i && b >= j))
  }

  /**
   * The diagonal scan resumed at anchor (i, j) (j == COLS stands for the start of the
   * next row): the answer of the first anchor, in row-major order, that holds a four.
   */
  function DiagFrom(g: Board, i: int, j: int): int
    requires WellFormed(g) && 0 <= i <= ROWS && 0 <= j <= COLS
    decreases ROWS - i, COLS - j
  {
    if i == ROWS then GAME_NOT_OVER
    else if j == COLS then DiagFrom(g, i + 1, 0)
    else
      var w := AnchorWinner(g, i, j);
      if w != GAME_NOT_OVER then w else DiagFrom(g, i, j + 1)
  }

  /**
   * The scan resumed at (i, j) reports a player only if some anchor at or after (i, j)
   * holds that player's four, and reports nothing exactly when no such anchor holds one.
   */
  lemma {:induction false} DiagFromMeaning(g: Board, i: int, j: int)
    requires WellFormed(g) && 0 <= i <= ROWS && 0 <= j <= COLS
    ensures var w := DiagFrom(g, i, j);
      (w == PLAYER_1 || w == PLAYER_2 || w == GAME_NOT_OVER) &&
      (w == PLAYER_1 ==> exists a, b :: AtOrAfter(i, j, a, b) && AnchorFour(g, a, b, X)) &&
      (w == PLAYER_2 ==> exists a, b :: AtOrAfter(i, j, a, b) && AnchorFour(g, a, b, O)) &&
      (w == GAME_NOT_OVER <==>
        forall a, b :: AtOrAfter(i, j, a, b) ==> !AnchorFour(g, a, b, X) && !AnchorFour(g, a, b, O))
    decreases ROWS - i, COLS - j
  {
    if i == ROWS {
    } else if j == COLS {
      DiagFromMeaning(g, i + 1, 0);
    } else if AnchorWinner(g, i, j) != GAME_NOT_OVER {
    } else {
      DiagFromMeaning(g, i, j + 1);
    }
  }

  /** What the diagonal scan of the whole board answers. */
  function DiagWinner(g: Board): int
    requires WellFormed(g)
  {
    DiagFrom(g, 0, 0)
  }

  /**
   * Four tokens t on a diagonal in any of the four diagonal directions (dr, dc), starting
   * at (r, c); an independent description of "four in a row diagonally".
   */
  predicate DiagonalFourAt(g: Board, r: int, c: int, dr: int, dc: int, t: Cell)
    requires WellFormed(g)
  {
    (dr == 1 || dr == -1) && (dc == 1 || dc == -1) &&
    0 <= r < ROWS && 0 <= c < COLS && 0 <= r + 3 * dr < ROWS && 0 <= c + 3 * dc < COLS &&
    g[r][c] == t && g[r + dr][c + dc] == t && g[r + 2 * dr][c + 2 * dc] == t && g[r + 3 * dr][c + 3 * dc] == t
  }

  ghost predicate HasDiagonalFour(g: Board, t: Cell)
    requires WellFormed(g)
  {
    exists r, c, dr, dc :: DiagonalFourAt(g, r, c, dr, dc, t)
  }

  /**
   * The anchors of the diagonal scan cover every diagonal four of the board: down-right
   * anchors in rows 0..2 and up-right anchors in rows 3..5, both in columns 0..3, reach
   * all diagonals of length four in all four directions, despite the else-if.
   */
  lemma {:induction false} DiagonalScanExhaustive(g: Board, t: Cell)
    requires WellFormed(g) && t != Empty
    ensures HasDiagonalFour(g, t) <==> exists a, b :: AtOrAfter(0, 0, a, b) && AnchorFour(g, a, b, t)
  {
    if HasDiagonalFour(g, t) {
      var r, c, dr, dc :| DiagonalFourAt(g, r, c, dr, dc, t);
      if dr == 1 && dc == 1 {
        assert AtOrAfter(0, 0, r, c) && AnchorFour(g, r, c, t);
      } else if dr == -1 && dc == 1 {
        assert AtOrAfter(0, 0, r, c) && AnchorFour(g, r, c, t);
      } else if dr == 1 && dc == -1 {
        // read from its other end, a down-left diagonal is an up-right one
        assert AtOrAfter(0, 0, r + 3, c - 3) && AnchorFour(g, r + 3, c - 3, t);
      } else {
        // read from its other end, an up-left diagonal is a down-right one
        assert AtOrAfter(0, 0, r - 3, c - 3) && AnchorFour(g, r - 3, c - 3, t);
      }
    }
    if exists a, b :: AtOrAfter(0, 0, a, b) && AnchorFour(g, a, b, t) {
      var a, b :| AtOrAfter(0, 0, a, b) && AnchorFour(g, a, b, t);
      if a + 3 < ROWS && b + 3 < COLS {
        assert DiagonalFourAt(g, a, b, 1, 1, t);
      } else {
        assert DiagonalFourAt(g, a, b, -1, 1, t);
      }
    }
  }

  /** The diagonal scan reports a player only if that player has a diagonal four, and
   *  reports nothing exactly when neither player has one. */
  lemma DiagWinnerMeaning(g: Board)
    requires WellFormed(g)
    ensures DiagWinner(g) == PLAYER_1 ==> HasDiagonalFour(g, X)
    ensures DiagWinner(g) == PLAYER_2 ==> HasDiagonalFour(g, O)
    ensures DiagWinner(g) == GAME_NOT_OVER <==> !HasDiagonalFour(g, X) && !HasDiagonalFour(g, O)
  {
    DiagFromMeaning(g, 0, 0);
    DiagonalScanExhaustive(g, X);
    DiagonalScanExhaustive(g, O);
  }

  // ---------------------------------------------------------------------------
  // The winner
  // ---------------------------------------------------------------------------

  /** Cell (r, c) holds a token. */
  predicate Occupied(g: Board, r: int, c: int)
    requires WellFormed(g) && 0 <= r < ROWS && 0 <= c < COLS
  {
    g[r][c] != Empty
  }

  /** Every cell holds a token. */
  predicate Full(g: Board)
    requires WellFormed(g)
  {
    forall r, c :: 0 <= r < ROWS && 0 <= c < COLS ==> Occupied(g, r, c)
  }

  /**
   * The fours that the row-and-column loop visits from index i on: row a and column a
   * for a in i .. ROWS-1.  The loop bound is the number of ROWS, so column index 6 is
   * never visited.
   */
  ghost predicate ScannedLineFour(g: Board, a: int, t: Cell)
    requires WellFormed(g)
  {
    0 <= a < ROWS && (HasFour(g[a], t) || HasFour(Column(g, a), t))
  }

  /** A four of t that the winner computation looks for from loop index i on. */
  ghost predicate ScannedFourFrom(g: Board, i: int, t: Cell)
    requires WellFormed(g)
  {
    (exists a :: i <= a && ScannedLineFour(g, a, t)) || HasDiagonalFour(g, t)
  }

  /**
   * The winner computation resumed at loop index i: row i, then column i, for i up to
   * ROWS - 1; then the diagonals; then the tie check.
   */
  ghost function WinnerFrom(g: Board, i: int): int
    requires WellFormed(g) && 0 <= i <= ROWS
    decreases ROWS - i
  {
    if i == ROWS then
      var d := DiagWinner(g);
      if d != GAME_NOT_OVER then d
      else if Full(g) then TIE else GAME_NOT_OVER
    else
      var rw := LineWinner(g[i]);
      if rw != GAME_NOT_OVER then rw
      else
        var cw := LineWinner(Column(g, i));
        if cw != GAME_NOT_OVER then cw
        else WinnerFrom(g, i + 1)
  }

  /**
   * Resumed at loop index i, the winner computation reports a player only if that player
   * has a four it looks for from i on; it reports TIE exactly when it finds no four and
   * the board is full, and GAME_NOT_OVER exactly when it finds no four and some cell is blank.
   */
  lemma {:induction false} WinnerFromMeaning(g: Board, i: int)
    requires WellFormed(g) && 0 <= i <= ROWS
    ensures var w := WinnerFrom(g, i);
      (w == PLAYER_1 || w == PLAYER_2 || w == TIE || w == GAME_NOT_OVER) &&
      (w == PLAYER_1 ==> ScannedFourFrom(g, i, X)) &&
      (w == PLAYER_2 ==> ScannedFourFrom(g, i, O)) &&
      (w == TIE <==> !ScannedFourFrom(g, i, X) && !ScannedFourFrom(g, i, O) && Full(g)) &&
      (w == GAME_NOT_OVER <==> !ScannedFourFrom(g, i, X) && !ScannedFourFrom(g, i, O) && !Full(g))
    decreases ROWS - i
  {
    if i == ROWS {
      DiagWinnerMeaning(g);
    } else {
      var rw := LineWinner(g[i]);
      var cw := LineWinner(Column(g, i));
      if rw != GAME_NOT_OVER {
        assert ScannedLineFour(g, i, TokenOf(rw));
      } else if cw != GAME_NOT_OVER {
        assert ScannedLineFour(g, i, TokenOf(cw));
      } else {
        assert !ScannedLineFour(g, i, X) && !ScannedLineFour(g, i, O);
        WinnerFromMeaning(g, i + 1);
      }
    }
  }

  /** A four of t anywhere the winner computation looks: a row, column 0..5, or a diagonal. */
  ghost predicate ScannedFour(g: Board, t: Cell)
    requires WellFormed(g)
  {
    ScannedFourFrom(g, 0, t)
  }

  /** The outcome of the board, as src/ConnectFour.java computes it. */
  ghost function Winner(g: Board): int
    requires WellFormed(g)
  {
    WinnerFrom(g, 0)
  }

  /**
   * The outcome reports a player only if that player has a four in a row, column 0..5 or
   * diagonal; a player who alone has such a four is reported; TIE means no four and a full
   * board; GAME_NOT_OVER means no four and a blank cell left.
   */
  lemma WinnerMeaning(g: Board)
    requires WellFormed(g)
    ensures var w := Winner(g);
      (w == PLAYER_1 || w == PLAYER_2 || w == TIE || w == GAME_NOT_OVER) &&
      (w == PLAYER_1 ==> ScannedFour(g, X)) &&
      (w == PLAYER_2 ==> ScannedFour(g, O)) &&
      (ScannedFour(g, X) && !ScannedFour(g, O) ==> w == PLAYER_1) &&
      (ScannedFour(g, O) && !ScannedFour(g, X) ==> w == PLAYER_2) &&
      (w == TIE <==> !ScannedFour(g, X) && !ScannedFour(g, O) && Full(g)) &&
      (w == GAME_NOT_OVER <==> !ScannedFour(g, X) && !ScannedFour(g, O) && !Full(g))
  {
    WinnerFromMeaning(g, 0);
  }

  /** The token of the player whose turn it is. */
  function CurrentToken(xTurn: bool): (t: Cell)
    ensures t != Empty
    ensures PlayerOf(t) == (if xTurn then PLAYER_1 else PLAYER_2)
  {
    if xTurn then X else O
  }
  // ---------------------------------------------------------------------------
  // The column the winner computation never scans vertically
  // ---------------------------------------------------------------------------

  /**
   * The board the moves 7, 1, 7, 1, 7, 1, 7 leave: X in the bottom four cells of column
   * index 6, O in the bottom three cells of column index 0, every other cell blank.
   */
  function LastColumnBoard(): (g: Board)
    ensures WellFormed(g)
  {
    seq(ROWS, r requires 0 <= r < ROWS =>
      seq(COLS, c requires 0 <= c < COLS =>
        if c == COLS - 1 && r >= 2 then X else if c == 0 && r >= 3 then O else Empty))
  }

  /**
   * The winner computation scans columns only up to index ROWS - 1 = 5: on the board above,
   * X has four in a row down column index 6, nobody has any other four, and the outcome is
   * still GAME_NOT_OVER.
   */
  lemma {:induction false} LastColumnFourIsMissed()
    ensures var g := LastColumnBoard();
      Gravity(g) && HasFour(Column(g, COLS - 1), X) && Winner(g) == GAME_NOT_OVER
  {
    var g := LastColumnBoard();
    assert FourAt(Column(g, COLS - 1), 2, X);
    forall t | t == X || t == O
      ensures !ScannedFour(g, t)
    {
      forall a | 0 <= a < ROWS
        ensures !ScannedLineFour(g, a, t)
      {
        forall k | FourAt(g[a], k, t) ensures false {
        }
        forall k | FourAt(Column(g, a), k, t) ensures false {
        }
      }
      forall r, c, dr, dc | DiagonalFourAt(g, r, c, dr, dc, t) ensures false {
      }
    }
    assert !Full(g) by { assert !Occupied(g, 0, 0); }
    WinnerMeaning(g);
  }

  // ---------------------------------------------------------------------------
  // Rendering the board as text
  // ---------------------------------------------------------------------------

  /** The character a cell is printed as. */
  function Glyph(c: Cell): char
  {
    match c
    case Empty => ' '
    case X => 'X'
    case O => 'O'
  }

  /** The cell a printed character stands for (anything but X or O reads as blank). */
  function CellOfGlyph(ch: char): Cell
  {
    if ch == 'X' then X else if ch == 'O' then O else Empty
  }

  /** The first n cells of a row, each printed as " c |". */
  function RenderCells(row: seq<Cell>, n: int): string
    requires 0 <= n <= |row|
  {
    if n == 0 then "" else RenderCells(row, n - 1) + [' ', Glyph(row[n - 1]), ' ', '|']
  }

  /** One printed line: "|", then each cell as " c |", then a newline. */
  function RenderLine(row: seq<Cell>): string
    requires |row| == COLS
  {
    "|" + RenderCells(row, COLS) + "\n"
  }

  /** The first n rows of the board, one printed line each. */
  function RenderRows(g: Board, n: int): string
    requires WellFormed(g) && 0 <= n <= ROWS
  {
    if n == 0 then "" else RenderRows(g, n - 1) + RenderLine(g[n - 1])
  }

  /** The text of the whole board, top row first. */
  function Render(g: Board): string
    requires WellFormed(g)
  {
    RenderRows(g, ROWS)
  }

  /** Where the cell (r, c) is printed in the text of the board. */
  function GlyphIndex(r: int, c: int): int
  {
    30 * r + 4 * c + 2
  }

  /** Reading the cells back from the text of a board. */
  function ReadBoard(text: string): (g: Board)
    requires |text| == 30 * ROWS
    ensures WellFormed(g)
  {
    seq(ROWS, r requires 0 <= r < ROWS =>
      seq(COLS, c requires 0 <= c < COLS => CellOfGlyph(text[GlyphIndex(r, c)])))
  }

  lemma {:induction false} RenderCellsLayout(row: seq<Cell>, n: int)
    requires 0 <= n <= |row|
    ensures |RenderCells(row, n)| == 4 * n
    ensures forall j :: 0 <= j < n ==>
      RenderCells(row, n)[4 * j] == ' ' && RenderCells(row, n)[4 * j + 1] == Glyph(row[j]) &&
      RenderCells(row, n)[4 * j + 2] == ' ' && RenderCells(row, n)[4 * j + 3] == '|'
  {
    if n > 0 {
      RenderCellsLayout(row, n - 1);
    }
  }

  lemma {:induction false} RenderRowsLayout(g: Board, n: int)
    requires WellFormed(g) && 0 <= n <= ROWS
    ensures |RenderRows(g, n)| == 30 * n
    ensures forall r :: 0 <= r < n ==> RenderRows(g, n)[30 * r] == '|' && RenderRows(g, n)[30 * r + 29] == '\n'
    ensures forall r, c :: 0 <= r < n && 0 <= c < COLS ==> RenderRows(g, n)[GlyphIndex(r, c)] == Glyph(g[r][c])
  {
    if n > 0 {
      RenderRowsLayout(g, n - 1);
      var prefix, cells := RenderRows(g, n - 1), RenderCells(g[n - 1], COLS);
      RenderCellsLayout(g[n - 1], COLS);
      var line := "|" + cells + "\n";
      var text := RenderRows(g, n);
      assert text == prefix + line;
      forall r | 0 <= r < n
        ensures text[30 * r] == '|' && text[30 * r + 29] == '\n'
      {
        if r < n - 1 {
          assert text[30 * r] == prefix[30 * r] && text[30 * r + 29] == prefix[30 * r + 29];
        } else {
          assert text[30 * r] == line[0] && text[30 * r + 29] == line[29];
        }
      }
      forall r, c | 0 <= r < n && 0 <= c < COLS
        ensures text[GlyphIndex(r, c)] == Glyph(g[r][c])
      {
        if r < n - 1 {
          assert text[GlyphIndex(r, c)] == prefix[GlyphIndex(r, c)];
        } else {
          assert text[GlyphIndex(r, c)] == line[4 * c + 2] == cells[4 * c + 1];
        }
      }
    }
  }

  /**
   * The text of the board has six lines of 30 characters, each framed by '|' and ending in
   * a newline, and reading the cells back from it gives the board itself.
   */
  lemma RenderRoundTrip(g: Board)
    requires WellFormed(g)
    ensures |Render(g)| == 30 * ROWS
    ensures forall r :: 0 <= r < ROWS ==> Render(g)[30 * r] == '|' && Render(g)[30 * r + 29] == '\n'
    ensures ReadBoard(Render(g)) == g
  {
    RenderRowsLayout(g, ROWS);
    SameCells(ReadBoard(Render(g)), g);
  }
}
