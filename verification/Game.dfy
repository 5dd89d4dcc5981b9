/**
 * The ConnectFour game object of src/ConnectFour.java: a 6 x 7 board held in an
 * array and updated in place, and the flag saying whether X moves next.  Every
 * loop of the source is a method here, proved against the board functions of
 * module Rules through Grid(), the board as a value.
 */
module Game {
  import opened Rules

  /** What a move attempt returns: success, or the reason the source throws. */
  datatype MoveResult = Moved | Rejected(reason: MoveError)

  class ConnectFour {
    var board: array2<Cell>
    var isXTurn: bool

    ghost predicate Valid()
      reads this`board
    {
      board.Length0 == ROWS && board.Length1 == COLS
    }

    /** The board as a value: row r, column c of Grid() is board[r, c]. */
    ghost function Grid(): (g: Board)
      reads this`board, board
      requires Valid()
      ensures WellFormed(g)
      ensures forall r, c :: 0 <= r < ROWS && 0 <= c < COLS ==> g[r][c] == board[r, c]
    {
      var b := board;
      seq(ROWS, r requires 0 <= r < ROWS reads b =>
        seq(COLS, c requires 0 <= c < COLS reads b => b[r, c]))
    }

    /** A new game: every cell blank, X to move. */
    constructor ()
      ensures Valid() && fresh(board)
      ensures Grid() == EmptyBoard() && Gravity(Grid())
      ensures isXTurn
    {
      board := new Cell[ROWS, COLS]((_, _) => Empty);
      isXTurn := true;
      new;
      SameCells(Grid(), EmptyBoard());
    }

    /** The board as text: one line per row, "|" and then " c |" for each cell. */
    method ToString() returns (result: string)
      requires Valid()
      ensures result == Render(Grid())
    {
      ghost var g := Grid();
      result := "";
      var i := 0;
      while i < ROWS
        invariant 0 <= i <= ROWS
        invariant result == RenderRows(g, i)
      {
        result := result + "|";
        var j := 0;
        while j < COLS
          invariant 0 <= j <= COLS
          invariant result == RenderRows(g, i) + "|" + RenderCells(g[i], j)
        {
          result := result + " " + [Glyph(board[i, j])] + " |";
          j := j + 1;
        }
        result := result + "\n";
        i := i + 1;
      }
    }

    /**
     * Whose turn it is: GAME_IS_OVER once the game is over (the winner computation
     * reports anything but GAME_NOT_OVER), otherwise 1 for X and 2 for O.
     */
    method GetNextPlayer() returns (p: int)
      requires Valid()
      ensures Winner(Grid()) != GAME_NOT_OVER ==> p == GAME_IS_OVER
      ensures Winner(Grid()) == GAME_NOT_OVER ==> p == if isXTurn then PLAYER_1 else PLAYER_2
    {
      var w := GetWinner();
      if w != GAME_NOT_OVER {
        return GAME_IS_OVER;
      }
      p := if isXTurn then PLAYER_1 else PLAYER_2;
    }

    /**
     * A move by the player whose turn it is into the 1-based column `column`.  A refused
     * move changes nothing; a successful one drops the token and passes the turn.
     */
    method MakeMove(column: int) returns (res: MoveResult)
      requires Valid()
      modifies this, board
      ensures Valid() && board == old(board)
      ensures var d := Drop(old(Grid()), column, CurrentToken(old(isXTurn)));
        match d
        case Failed(e) => res == Rejected(e) && Grid() == old(Grid()) && isXTurn == old(isXTurn)
        case Dropped(g) => res == Moved && Grid() == g && isXTurn == !old(isXTurn)
      ensures Gravity(old(Grid())) ==> Gravity(Grid())
    {
      ghost var before := Grid();
      var currToken := if isXTurn then X else O;
      res := Place(column, currToken);
      label placed:
      if res.Moved? {
        isXTurn := !isXTurn;
        assert unchanged@placed(this`board, board);
        if Gravity(before) {
          DropKeepsGravity(before, column, currToken);
        }
      }
    }

    /**
     * Drop `token` into the 1-based column `column`: rejected with InvalidColumn outside
     * [1, 7], with ColumnFull when the column has no blank cell, otherwise the lowest
     * blank cell of the column receives the token.
     */
    method Place(column: int, token: Cell) returns (res: MoveResult)
      requires Valid() && token != Empty
      modifies board
      ensures Valid()
      ensures match Drop(old(Grid()), column, token)
        case Failed(e) => res == Rejected(e) && Grid() == old(Grid())
        case Dropped(g) => res == Moved && Grid() == g
    {
      if column < 1 || column > COLS {
        return Rejected(InvalidColumn);
      }
      var lowest := GetLowestRow(column - 1);
      if lowest == COLUMN_FULL {
        return Rejected(ColumnFull);
      }
      ghost var before := Grid();
      var row := GetLowestRow(column - 1);
      ghost var after := before[row := before[row][column - 1 := token]];
      assert Drop(before, column, token) == Dropped(after);
      board[row, column - 1] := token;
      res := Moved;
      SameCells(Grid(), after);
    }

    /** The row a token dropped into column `col` lands in, or COLUMN_FULL. */
    method GetLowestRow(col: int) returns (row: int)
      requires Valid() && 0 <= col < COLS
      ensures row == LowestEmpty(Grid(), col)
    {
      row := ROWS - 1;
      while row >= 0
        invariant -1 <= row < ROWS
        invariant LowestFrom(Grid(), col, row) == LowestEmpty(Grid(), col)
      {
        if board[row, col] != X && board[row, col] != O {
          return row;
        }
        row := row - 1;
      }
      return COLUMN_FULL;
    }

    /**
     * The outcome: row i then column i for i in 0 .. ROWS - 1, then the diagonals,
     * then the tie check.  Column index 6 is never checked on its own.
     */
    method GetWinner() returns (w: int)
      requires Valid()
      ensures w == Winner(Grid())
    {
      ghost var g := Grid();
      var i := 0;
      while i < ROWS
        invariant 0 <= i <= ROWS
        invariant unchanged(this`board, board) && g == Grid() && WinnerFrom(g, i) == Winner(g)
      {
        var rowWinner := GetRowWinner(i);
        if rowWinner != GAME_NOT_OVER {
          return rowWinner;
        }
        var colWinner := GetColWinner(i);
        if colWinner != GAME_NOT_OVER {
          return colWinner;
        }
        i := i + 1;
      }
      var diagWinner := GetDiagWinner();
      if diagWinner != GAME_NOT_OVER {
        return diagWinner;
      }
      w := CheckTie();
    }

    /** The player with four in a row in row `row`, or GAME_NOT_OVER. */
    method GetRowWinner(row: int) returns (w: int)
      requires Valid() && 0 <= row < ROWS
      ensures w == LineWinner(Grid()[row])
    {
      ghost var s := Grid()[row];
      var consecutive := 0;
      var player := EMPTY;
      var col := 0;
      while col < COLS
        invariant 0 <= col <= COLS
        invariant RunState(s, col, player, consecutive) && consecutive < 4
        invariant forall k :: 0 <= k && k + 4 <= col ==> !FourAt(s, k, X) && !FourAt(s, k, O)
      {
        if board[row, col] == X {
          if player == PLAYER_1 {
            consecutive := consecutive + 1;
          } else {
            player := PLAYER_1;
            consecutive := 1;
          }
        } else if board[row, col] == O {
          if player == PLAYER_2 {
            consecutive := consecutive + 1;
          } else {
            player := PLAYER_2;
            consecutive := 1;
          }
        } else {
          player := EMPTY;
          consecutive := 0;
        }
        if consecutive == 4 {
          assert FourAt(s, col - 3, TokenOf(player));
          return player;
        }
        RunStep(s, col, player, consecutive);
        col := col + 1;
      }
      w := GAME_NOT_OVER;
    }

    /** The player with four in a row in column `col`, or GAME_NOT_OVER. */
    method GetColWinner(col: int) returns (w: int)
      requires Valid() && 0 <= col < COLS
      ensures w == LineWinner(Column(Grid(), col))
    {
      ghost var s := Column(Grid(), col);
      var consecutive := 0;
      var player := EMPTY;
      var row := 0;
      while row < ROWS
        invariant 0 <= row <= ROWS
        invariant RunState(s, row, player, consecutive) && consecutive < 4
        invariant forall k :: 0 <= k && k + 4 <= row ==> !FourAt(s, k, X) && !FourAt(s, k, O)
      {
        if board[row, col] == X {
          if player == PLAYER_1 {
            consecutive := consecutive + 1;
          } else {
            player := PLAYER_1;
            consecutive := 1;
          }
        } else if board[row, col] == O {
          if player == PLAYER_2 {
            consecutive := consecutive + 1;
          } else {
            player := PLAYER_2;
            consecutive := 1;
          }
        } else {
          player := EMPTY;
          consecutive := 0;
        }
        if consecutive == 4 {
          assert FourAt(s, row - 3, TokenOf(player));
          return player;
        }
        RunStep(s, row, player, consecutive);
        row := row + 1;
      }
      w := GAME_NOT_OVER;
    }

    /**
     * The diagonal scan: anchors in row-major order; at each one the down-right
     * diagonal if it fits, else the up-right diagonal if that fits.
     */
    method GetDiagWinner() returns (w: int)
      requires Valid()
      ensures w == DiagWinner(Grid())
    {
      ghost var g := Grid();
      var i := 0;
      while i < ROWS
        invariant 0 <= i <= ROWS
        invariant DiagFrom(g, i, 0) == DiagWinner(g)
      {
        var j := 0;
        while j < COLS
          invariant 0 <= j <= COLS
          invariant DiagFrom(g, i, j) == DiagWinner(g)
        {
          if i + 3 < ROWS && j + 3 < COLS {
            if board[i, j] == board[i + 1, j + 1] && board[i, j] == board[i + 2, j + 2]
              && board[i, j] == board[i + 3, j + 3] {
              if board[i, j] == X {
                return PLAYER_1;
              } else if board[i, j] == O {
                return PLAYER_2;
              }
            }
          } else if i - 3 >= 0 && j + 3 < COLS {
            if board[i, j] == board[i - 1, j + 1] && board[i, j] == board[i - 2, j + 2]
              && board[i, j] == board[i - 3, j + 3] {
              if board[i, j] == X {
                return PLAYER_1;
              } else if board[i, j] == O {
                return PLAYER_2;
              }
            }
          }
          assert AnchorWinner(g, i, j) == GAME_NOT_OVER;
          j := j + 1;
        }
        i := i + 1;
      }
      w := GAME_NOT_OVER;
    }

    /** TIE when no column has a blank cell left, GAME_NOT_OVER otherwise. */
    method CheckTie() returns (w: int)
      requires Valid()
      ensures w == (if Full(Grid()) then TIE else GAME_NOT_OVER)
    {
      ghost var g := Grid();
      var i := 0;
      while i < COLS
        invariant 0 <= i <= COLS
        invariant forall r, c :: 0 <= r < ROWS && 0 <= c < i ==> Occupied(g, r, c)
      {
        var lowest := GetLowestRow(i);
        if lowest != COLUMN_FULL {
          assert !Occupied(g, lowest, i);
          return GAME_NOT_OVER;
        }
        i := i + 1;
      }
      return TIE;
    }
  }

  /**
   * The state of a row or column scan after `n` cells of line s: `player` is the owner
   * of cell n-1 (EMPTY if it is blank, or n == 0) and `consecutive` the exact length of
   * the run of that owner's tokens ending at cell n-1.
   */
  ghost predicate RunState(s: seq<Cell>, n: int, player: int, consecutive: int)
  {
    0 <= n <= |s| && 0 <= consecutive <= n &&
    (player == EMPTY || player == PLAYER_1 || player == PLAYER_2) &&
    (player == EMPTY ==> consecutive == 0 && (n == 0 || s[n - 1] == Empty)) &&
    (player != EMPTY ==>
      consecutive >= 1 &&
      (forall k :: n - consecutive <= k < n ==> s[k] == TokenOf(player)) &&
      (n == consecutive || s[n - consecutive - 1] != TokenOf(player)))
  }

  /**
   * One step of the run counter: if the counter stays below four after cell n, no four
   * in a row of either token ends at cell n.
   */
  lemma RunStep(s: seq<Cell>, n: int, player: int, consecutive: int)
    requires 0 <= n < |s| && RunState(s, n + 1, player, consecutive) && consecutive < 4
    requires forall k :: 0 <= k && k + 4 <= n ==> !FourAt(s, k, X) && !FourAt(s, k, O)
    ensures forall k :: 0 <= k && k + 4 <= n + 1 ==> !FourAt(s, k, X) && !FourAt(s, k, O)
  {
    forall k | 0 <= k && k + 4 <= n + 1
      ensures !FourAt(s, k, X) && !FourAt(s, k, O)
    {
      if k + 4 == n + 1 {
        // a four ending at cell n would make the run counter reach four
        assert k == n - 3;
      }
    }
  }
}
