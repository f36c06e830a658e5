/** The rules engine object: an 8x8 `array2` of pieces updated in place, the
    side to move and the winner field. Every method is proved against the
    corresponding function of module Rules, evaluated on the board's value
    `Cells()`. */
module Game {
  import opened Pieces
  import opened Rules

  /** How one pass of the king walk's loop ends: `break`, a `return` of
      the answer, or on to the next cell (noting whether a piece was taken). */
  datatype WalkAction = Broke | Arrived(answer: bool) | Advanced(row: int, col: int, captured: bool)

  class CheckersGameLogic {
    const board: array2<Piece>
    var currentPlayer: Player
    var winningPlayer: Player

    /** Object invariant: an 8x8 board, a real side to move, and a winner
        field that nothing ever sets after construction. */
    ghost predicate Valid()
      reads this
    {
      Shaped() && currentPlayer != Player.Empty && winningPlayer == Player.Empty
    }

    /** The board array is 8x8. */
    predicate Shaped()
    {
      board.Length0 == Size && board.Length1 == Size
    }

    /** The board as a value. */
    function Cells(): (g: Board)
      reads board
      requires Shaped()
      ensures forall r, c | 0 <= r < Size && 0 <= c < Size :: g[r][c] == board[r, c]
    {
      seq(Size, r requires 0 <= r < Size reads board =>
        seq(Size, c requires 0 <= c < Size reads board => board[r, c]))
    }

    /** Writes one cell (the source assigns `board[row, col]` directly). */
    method SetPiece(row: int, col: int, piece: Piece)
      requires Valid() && IsValidPosition(row, col)
      modifies board
      ensures Cells() == SetCell(old(Cells()), row, col, piece)
    {
      board[row, col] := piece;
      BoardsEqual(Cells(), SetCell(old(Cells()), row, col, piece));
    }

    /** A new game: the starting layout, White to move, no winner. */
    constructor ()
      ensures Valid() && fresh(board)
      ensures Cells() == InitialBoard()
      ensures currentPlayer == Player.White && winningPlayer == Player.Empty
    {
      board := new Piece[Size, Size];
      currentPlayer := Player.White;
      winningPlayer := Player.Empty;
      new;
      InitializeBoard();
    }

    /** Counts each side's men and kings; the game is over when one side has none. */
    method IsGameOver() returns (over: bool, winner: Player)
      requires Valid()
      ensures winner == Winner(Cells())
      ensures over <==> winner != Player.Empty
    {
      ghost var g := Cells();
      var whiteCount := 0;
      var blackCount := 0;
      for row := 0 to Size
        invariant whiteCount == CountRows(g[..row], Owned(Player.White))
        invariant blackCount == CountRows(g[..row], Owned(Player.Black))
      {
        for col := 0 to Size
          invariant whiteCount == CountRows(g[..row], Owned(Player.White)) + CountRow(g[row][..col], Owned(Player.White))
          invariant blackCount == CountRows(g[..row], Owned(Player.Black)) + CountRow(g[row][..col], Owned(Player.Black))
        {
          var piece := board[row, col];
          assert g[row][..col + 1][..col] == g[row][..col];
          if piece == Piece.White || piece == Piece.WhiteKing {
            whiteCount := whiteCount + 1;
          } else if piece == Piece.Black || piece == Piece.BlackKing {
            blackCount := blackCount + 1;
          }
        }
        assert g[..row + 1][..row] == g[..row];
        assert g[row][..Size] == g[row];
      }
      assert g[..Size] == g;
      if whiteCount == 0 {
        return true, Player.Black;
      } else if blackCount == 0 {
        return true, Player.White;
      }
      return false, Player.Empty;
    }

    /** Writes the starting layout: Black men on rows 0-2 and White men on
        rows 5-7, on the squares whose row+col is odd; every other cell Empty. */
    method InitializeBoard()
      requires Valid()
      modifies board
      ensures Cells() == InitialBoard()
    {
      for row := 0 to Size
        invariant forall r, c | 0 <= r < row && 0 <= c < Size :: board[r, c] == InitialPiece(r, c)
      {
        for col := 0 to Size
          invariant forall r, c | 0 <= r < row && 0 <= c < Size :: board[r, c] == InitialPiece(r, c)
          invariant forall c | 0 <= c < col :: board[row, c] == InitialPiece(row, c)
        {
          if row < 3 && (row + col) % 2 != 0 {
            board[row, col] := Piece.Black;
          } else if row > 4 && (row + col) % 2 != 0 {
            board[row, col] := Piece.White;
          } else {
            board[row, col] := Piece.Empty;
          }
        }
      }
      BoardsEqual(Cells(), InitialBoard());
    }

    /** Whether the cell holds a man or a king. */
    method IsValidPiece(row: int, col: int) returns (valid: bool)
      requires Valid() && IsValidPosition(row, col)
      ensures valid <==> GetPlayer(Cells()[row][col]) != Player.Empty
    {
      var piece := board[row, col];
      if piece == Piece.White || piece == Piece.Black || piece == Piece.WhiteKing || piece == Piece.BlackKing {
        return true;
      }
      return false;
    }

    /** Validates a move for the side to move. The source square is read
        before any bounds check, so it must be on the board. The king branch
        empties every opposing piece its walk jumps, whatever the answer. */
    method IsValidMove(fromRow: int, fromCol: int, toRow: int, toCol: int) returns (accepted: bool)
      requires Valid() && IsValidPosition(fromRow, fromCol)
      modifies board
      ensures Valid()
      ensures var v := MoveValidation(old(Cells()), currentPlayer, fromRow, fromCol, toRow, toCol);
        accepted == v.accepted && Cells() == v.board
    {
      var piece := board[fromRow, fromCol];

      if toRow < 0 || toRow >= Size || toCol < 0 || toCol >= Size {
        return false;
      }
      if board[toRow, toCol] != Piece.Empty {
        return false;
      }
      if (piece == Piece.White || piece == Piece.WhiteKing) && currentPlayer != Player.White {
        return false;
      }
      if (piece == Piece.Black || piece == Piece.BlackKing) && currentPlayer != Player.Black {
        return false;
      }

      var rowDiff := toRow - fromRow;
      var colDiff := toCol - fromCol;
      if Abs(rowDiff) != Abs(colDiff) {
        return false;
      }

      if piece == Piece.White || piece == Piece.Black {
        var hasCapture := HasCaptureOption(currentPlayer);
        if hasCapture {
          var isCapture := IsCaptureMove(fromRow, fromCol, toRow, toCol, currentPlayer);
          if !isCapture {
            return false;
          }
        }
        var moveDirection := if piece == Piece.White then -1 else 1;
        if rowDiff == moveDirection && Abs(colDiff) == 1 {
          return true;
        }
        return hasCapture;
      }

      if piece == Piece.WhiteKing || piece == Piece.BlackKing {
        var stepRow := if rowDiff > 0 then 1 else -1;
        var stepCol := if colDiff > 0 then 1 else -1;
        accepted := WalkKing(piece, fromRow, fromCol, stepRow, stepCol, toRow, toCol);
        return;
      }

      return false;
    }

    /** The king branch of `IsValidMove`: walks from (fromRow, fromCol) one
        cell at a time in direction (stepRow, stepCol) toward the destination,
        emptying each opposing piece that has an empty cell beyond it. */
    method WalkKing(piece: Piece, fromRow: int, fromCol: int, stepRow: int, stepCol: int,
                    toRow: int, toCol: int) returns (accepted: bool)
      requires Valid() && IsValidPosition(fromRow, fromCol)
      requires (stepRow == 1 || stepRow == -1) && (stepCol == 1 || stepCol == -1)
      modifies board
      ensures var v := KingWalk(old(Cells()), piece, fromRow, fromCol, stepRow, stepCol, toRow, toCol, false);
        accepted == v.accepted && Cells() == v.board
    {
      var currentRow := fromRow;
      var currentCol := fromCol;
      var hasCapture := false;
      var hasOpponentOnDiagonal := false;
      ghost var walk := KingWalk(Cells(), piece, fromRow, fromCol, stepRow, stepCol, toRow, toCol, false);

      while true
        invariant Valid() && IsValidPosition(currentRow, currentCol)
        invariant hasOpponentOnDiagonal == hasCapture
        invariant KingWalk(Cells(), piece, currentRow, currentCol, stepRow, stepCol, toRow, toCol, hasCapture) == walk
        decreases if stepRow > 0 then Size - currentRow else currentRow + 1
      {
        var action := KingWalkIteration(piece, currentRow, currentCol, stepRow, stepCol, toRow, toCol,
                                        hasCapture, hasOpponentOnDiagonal);
        match action
        case Broke =>
          break;
        case Arrived(answer) =>
          return answer;
        case Advanced(nextRow, nextCol, captured) =>
          currentRow := nextRow;
          currentCol := nextCol;
          if captured {
            hasCapture := true;
            hasOpponentOnDiagonal := true;
          }
      }

      if hasCapture {
        return false;
      }
      return !hasOpponentOnDiagonal;
    }

    /** One pass of the king walk's loop body: step one cell; leave the loop
        off the board or at a piece that cannot be taken, answer on reaching
        the destination, otherwise go on (after removing a taken piece). */
    method KingWalkIteration(piece: Piece, row: int, col: int, stepRow: int, stepCol: int,
                             toRow: int, toCol: int, hasCapture: bool, hasOpponentOnDiagonal: bool)
      returns (action: WalkAction)
      requires Valid() && IsValidPosition(row, col)
      requires (stepRow == 1 || stepRow == -1) && (stepCol == 1 || stepCol == -1)
      requires hasOpponentOnDiagonal == hasCapture
      modifies board
      ensures var w := KingWalk(old(Cells()), piece, row, col, stepRow, stepCol, toRow, toCol, hasCapture);
        match action
        case Broke => w == Validation(!hasCapture, old(Cells())) && Cells() == old(Cells())
        case Arrived(answer) => w == Validation(answer, old(Cells())) && Cells() == old(Cells())
        case Advanced(r, c, captured) =>
          r == row + stepRow && c == col + stepCol && IsValidPosition(r, c) &&
          w == KingWalk(Cells(), piece, r, c, stepRow, stepCol, toRow, toCol, hasCapture || captured)
    {
      ghost var g := Cells();
      ghost var step := KingStep(g, piece, row, col, stepRow, stepCol, toRow, toCol, hasCapture);
      var currentRow := row + stepRow;
      var currentCol := col + stepCol;

      if currentRow < 0 || currentRow >= Size || currentCol < 0 || currentCol >= Size {
        assert step == Stop(Validation(!hasCapture, g));
        KingWalkStops(g, piece, row, col, stepRow, stepCol, toRow, toCol, hasCapture, step.verdict);
        return Broke;
      }

      var currentPiece := board[currentRow, currentCol];
      assert currentPiece == g[currentRow][currentCol];
      if currentPiece == Piece.Empty {
        if currentRow == toRow && currentCol == toCol {
          assert step == Stop(Validation(true, g));
          KingWalkStops(g, piece, row, col, stepRow, stepCol, toRow, toCol, hasCapture, step.verdict);
          if hasCapture {
            return Arrived(true);
          } else {
            return Arrived(!hasOpponentOnDiagonal);
          }
        }
        assert step == Next(g, currentRow, currentCol, hasCapture);
        KingWalkAdvances(g, piece, row, col, stepRow, stepCol, toRow, toCol, hasCapture,
                         g, currentRow, currentCol, hasCapture);
        return Advanced(currentRow, currentCol, false);
      }
      var captured := CaptureOnDiagonal(piece, currentRow, currentCol, stepRow, stepCol);
      if !captured {
        assert step == Stop(Validation(!hasCapture, g));
        KingWalkStops(g, piece, row, col, stepRow, stepCol, toRow, toCol, hasCapture, step.verdict);
        return Broke;
      }
      assert step == Next(SetCell(g, currentRow, currentCol, Piece.Empty), currentRow, currentCol, true);
      KingWalkAdvances(g, piece, row, col, stepRow, stepCol, toRow, toCol, hasCapture,
                       Cells(), currentRow, currentCol, true);
      return Advanced(currentRow, currentCol, true);
    }

    /** The occupied-cell branch of the king walk: an opposing piece at
        (row, col) with an empty on-board cell beyond it is removed. */
    method CaptureOnDiagonal(piece: Piece, row: int, col: int, stepRow: int, stepCol: int)
      returns (captured: bool)
      requires Valid() && IsValidPosition(row, col)
      modifies board
      ensures captured <==>
        Opposes(piece, old(Cells())[row][col]) && IsValidPosition(row + stepRow, col + stepCol) &&
        old(Cells())[row + stepRow][col + stepCol] == Piece.Empty
      ensures Cells() == if captured then SetCell(old(Cells()), row, col, Piece.Empty) else old(Cells())
    {
      var currentPiece := board[row, col];
      if (piece == Piece.WhiteKing && (currentPiece == Piece.Black || currentPiece == Piece.BlackKing)) ||
         (piece == Piece.BlackKing && (currentPiece == Piece.White || currentPiece == Piece.WhiteKing)) {
        var nextRow := row + stepRow;
        var nextCol := col + stepCol;
        if nextRow < 0 || nextRow >= Size || nextCol < 0 || nextCol >= Size {
          return false;
        }
        if board[nextRow, nextCol] == Piece.Empty {
          SetPiece(row, col, Piece.Empty);
          return true;
        }
      }
      return false;
    }

    /** The four jump tests the capture scan makes from one cell. */
    method ScanDirections(row: int, col: int) returns (found: bool)
      requires Valid() && IsValidPosition(row, col)
      ensures found == ScanFindsAny(Cells(), row, col)
    {
      ghost var g := Cells();
      var piece := board[row, col];
      assert piece == g[row][col];
      if col >= 2 && row >= 2 {
        var adjacent := board[row - 1, col - 1];
        var behind := board[row - 2, col - 2];
        assert adjacent == g[row - 1][col - 1] && behind == g[row - 2][col - 2];
        if behind == Piece.Empty && adjacent != piece && adjacent != Piece.Empty {
          return true;
        }
      }
      assert !ScanFinds(g, row, col, -1, -1);
      if col <= 5 && row >= 2 {
        var adjacent := board[row - 1, col + 1];
        var behind := board[row - 2, col + 2];
        assert adjacent == g[row - 1][col + 1] && behind == g[row - 2][col + 2];
        if behind == Piece.Empty && adjacent != piece && adjacent != Piece.Empty {
          return true;
        }
      }
      assert !ScanFinds(g, row, col, -1, 1);
      if col >= 2 && row <= 5 {
        var adjacent := board[row + 1, col - 1];
        var behind := board[row + 2, col - 2];
        assert adjacent == g[row + 1][col - 1] && behind == g[row + 2][col - 2];
        if behind == Piece.Empty && adjacent != piece && adjacent != Piece.Empty {
          return true;
        }
      }
      assert !ScanFinds(g, row, col, 1, -1);
      if col <= 5 && row <= 5 {
        var adjacent := board[row + 1, col + 1];
        var behind := board[row + 2, col + 2];
        assert adjacent == g[row + 1][col + 1] && behind == g[row + 2][col + 2];
        if behind == Piece.Empty && adjacent != piece && adjacent != Piece.Empty {
          return true;
        }
      }
      return false;
    }

    /** Scans the whole board for a piece of `player` with a jump pattern
        next to it; men and kings are tested in the same four directions. */
    method HasCaptureOption(player: Player) returns (found: bool)
      requires Valid()
      ensures found == CaptureOption(Cells(), player)
    {
      ghost var g := Cells();
      for row := 0 to Size
        invariant forall r, c | 0 <= r < row && 0 <= c < Size :: !CaptureFrom(g, player, r, c)
      {
        for col := 0 to Size
          invariant forall r, c | 0 <= r < row && 0 <= c < Size :: !CaptureFrom(g, player, r, c)
          invariant forall c | 0 <= c < col :: !CaptureFrom(g, player, row, c)
        {
          var hit := CellCapture(player, row, col);
          if hit {
            return true;
          }
        }
      }
      return false;
    }

    /** The body of the scan for one cell: a piece of `player` there, man or
        king, is tested in the four directions. */
    method CellCapture(player: Player, row: int, col: int) returns (hit: bool)
      requires Valid() && IsValidPosition(row, col)
      ensures hit == CaptureFrom(Cells(), player, row, col)
    {
      var piece := board[row, col];
      if ((piece == Piece.White || piece == Piece.WhiteKing) && player == Player.White) ||
         ((piece == Piece.Black || piece == Piece.BlackKing) && player == Player.Black) {
        if piece == Piece.White || piece == Piece.Black {
          hit := ScanDirections(row, col);
          if hit {
            return true;
          }
        }
        if piece == Piece.WhiteKing || piece == Piece.BlackKing {
          hit := ScanDirections(row, col);
          if hit {
            return true;
          }
        }
      }
      return false;
    }

    /** A capture from (fromRow, fromCol) over (captureRow, captureCol) onto
        the landing cell: landing on the board and Empty, no piece between the
        mover and the captured cell, and the captured cell holding the
        opponent's man or king. */
    method IsValidCapture(fromRow: int, fromCol: int, captureRow: int, captureCol: int,
                          landingRow: int, landingCol: int, player: Player) returns (valid: bool)
      requires Valid() && IsValidPosition(fromRow, fromCol)
      requires CaptureShape(fromRow, fromCol, captureRow, captureCol, landingRow, landingCol)
      ensures valid == ValidCapture(Cells(), fromRow, fromCol, captureRow, captureCol, landingRow, landingCol, player)
    {
      if landingRow < 0 || landingRow >= Size || landingCol < 0 || landingCol >= Size {
        return false;
      }
      if board[landingRow, landingCol] != Piece.Empty {
        return false;
      }

      var stepRow := if captureRow < fromRow then -1 else 1;
      var stepCol := if captureCol < fromCol then -1 else 1;
      var clear := NoObstacle(fromRow, fromCol, stepRow, stepCol, captureRow, captureCol);
      if !clear {
        return false;
      }

      var opponentPiece := if player == Player.White then Piece.Black else Piece.White;
      var captured := board[captureRow, captureCol];
      if captured != opponentPiece && captured != KingOf(opponentPiece) {
        return false;
      }
      return true;
    }

    /** The obstacle loop of `IsValidCapture`: walks from the mover toward the
        captured cell and fails on the first occupied cell. The loop stops as
        soon as either coordinate reaches the captured cell's. */
    method NoObstacle(fromRow: int, fromCol: int, stepRow: int, stepCol: int, captureRow: int, captureCol: int)
      returns (clear: bool)
      requires Valid() && IsValidPosition(fromRow, fromCol) && IsValidPosition(captureRow, captureCol)
      requires Abs(captureRow - fromRow) == Abs(captureCol - fromCol) >= 1
      requires stepRow == Sign(captureRow - fromRow) && stepCol == Sign(captureCol - fromCol)
      ensures clear == PathClear(Cells(), fromRow, fromCol, stepRow, stepCol, Abs(captureRow - fromRow))
    {
      ghost var g := Cells();
      var currentRow := fromRow + stepRow;
      var currentCol := fromCol + stepCol;
      ghost var n := Abs(captureRow - fromRow);
      ghost var k := 1;

      while currentRow != captureRow && currentCol != captureCol
        invariant 1 <= k <= n
        invariant currentRow == Ray(fromRow, stepRow, k) && currentCol == Ray(fromCol, stepCol, k)
        invariant forall j | 1 <= j < k :: g[Ray(fromRow, stepRow, j)][Ray(fromCol, stepCol, j)] == Piece.Empty
        decreases n - k
      {
        if board[currentRow, currentCol] != Piece.Empty {
          assert g[currentRow][currentCol] != Piece.Empty;
          return false;
        }
        currentRow := currentRow + stepRow;
        currentCol := currentCol + stepCol;
        k := k + 1;
      }
      return true;
    }

    /** A 2x2 move whose midpoint `IsValidCapture` accepts. */
    method IsCaptureMove(fromRow: int, fromCol: int, toRow: int, toCol: int, player: Player) returns (capture: bool)
      requires Valid() && IsValidPosition(fromRow, fromCol)
      ensures capture == CaptureMove(Cells(), fromRow, fromCol, toRow, toCol, player)
    {
      var rowDiff := Abs(toRow - fromRow);
      var colDiff := Abs(toCol - fromCol);
      if rowDiff == 2 && colDiff == 2 {
        var captureRow := fromRow + HalfTowardZero(toRow - fromRow);
        var captureCol := fromCol + HalfTowardZero(toCol - fromCol);
        capture := IsValidCapture(fromRow, fromCol, captureRow, captureCol, toRow, toCol, player);
        return;
      }
      return false;
    }

    /** Applies a move without validating it: relocation, removal of the
        jumped piece, turn hand-over or retention, promotion, and the extra
        same-row check for kings moving two rows. */
    method MovePiece(fromRow: int, fromCol: int, toRow: int, toCol: int)
      requires Valid() && IsValidPosition(fromRow, fromCol) && IsValidPosition(toRow, toCol)
      modifies this, board
      ensures Valid()
      ensures var o := MoveOutcome(old(Cells()), old(currentPlayer), fromRow, fromCol, toRow, toCol);
        Cells() == o.board && currentPlayer == o.player
    {
      var piece := RelocateAndJump(fromRow, fromCol, toRow, toCol);
      Crown(piece, toRow, toCol);
      RecheckKingRow(piece, fromRow, fromCol, toRow, toCol);
    }

    /** The first part of `MovePiece`: the piece is moved, the midpoint of a
        2x2 move emptied, and the turn kept only when the landed piece can
        capture again. Returns the piece that was moved. */
    method RelocateAndJump(fromRow: int, fromCol: int, toRow: int, toCol: int) returns (piece: Piece)
      requires Valid() && IsValidPosition(fromRow, fromCol) && IsValidPosition(toRow, toCol)
      modifies this, board
      ensures Valid() && piece == old(Cells())[fromRow][fromCol]
      ensures var o := JumpStage(old(Cells()), old(currentPlayer), fromRow, fromCol, toRow, toCol);
        Cells() == o.board && currentPlayer == o.player
    {
      ghost var g := Cells();
      piece := board[fromRow, fromCol];

      SetPiece(fromRow, fromCol, Piece.Empty);
      SetPiece(toRow, toCol, piece);
      ghost var moved := SetCell(SetCell(g, fromRow, fromCol, Piece.Empty), toRow, toCol, piece);
      assert Cells() == moved;

      var rowDiff := Abs(toRow - fromRow);
      var colDiff := Abs(toCol - fromCol);
      var capturingMove := rowDiff == 2 && colDiff == 2;

      if capturingMove {
        var capturedRow := fromRow + HalfTowardZero(toRow - fromRow);
        var capturedCol := fromCol + HalfTowardZero(toCol - fromCol);
        SetPiece(capturedRow, capturedCol, Piece.Empty);
        assert Cells() == SetCell(moved, capturedRow, capturedCol, Piece.Empty);
        var hasOtherCaptureMoves := IsValidCaptureMove(Cells(), toRow, toCol, currentPlayer);
        if !hasOtherCaptureMoves {
          currentPlayer := Toggle(currentPlayer);
        }
      } else {
        currentPlayer := Toggle(currentPlayer);
      }
    }

    /** The promotion part of `MovePiece`. */
    method Crown(piece: Piece, toRow: int, toCol: int)
      requires Valid() && IsValidPosition(toRow, toCol)
      modifies board
      ensures Cells() == CrownStage(old(Cells()), piece, toRow, toCol)
    {
      if piece == Piece.White && toRow == 0 && piece != Piece.WhiteKing {
        SetPiece(toRow, toCol, Piece.WhiteKing);
      }
      if piece == Piece.Black && toRow == Size - 1 && piece != Piece.BlackKing {
        SetPiece(toRow, toCol, Piece.BlackKing);
      }
    }

    /** The last part of `MovePiece`: a king that moved two rows empties the
        halfway cell and the turn toggles again when `IsValidCaptureInRow`
        holds for the side now to move. */
    method RecheckKingRow(piece: Piece, fromRow: int, fromCol: int, toRow: int, toCol: int)
      requires Valid() && IsValidPosition(fromRow, fromCol) && IsValidPosition(toRow, toCol)
      modifies this, board
      ensures Valid()
      ensures var o := KingRowStage(Outcome(old(Cells()), old(currentPlayer)), piece, fromRow, fromCol, toRow, toCol);
        Cells() == o.board && currentPlayer == o.player
    {
      if (piece == Piece.WhiteKing || piece == Piece.BlackKing) && Abs(toRow - fromRow) == 2 {
        var capturedRow := fromRow + HalfTowardZero(toRow - fromRow);
        var capturedCol := fromCol + HalfTowardZero(toCol - fromCol);
        ghost var g := Cells();
        SetPiece(capturedRow, capturedCol, Piece.Empty);
        ghost var cleared := SetCell(g, capturedRow, capturedCol, Piece.Empty);
        assert Cells() == cleared;
        KingRowStageApplies(Outcome(g, currentPlayer), piece, fromRow, fromCol, toRow, toCol);
        RecheckTurn(toRow, toCol, capturedRow, capturedCol);
        assert Cells() == cleared;
      }
    }

    /** The turn decision of the king stage: the turn toggles when
        `IsValidCaptureInRow` holds for the side now to move. */
    method RecheckTurn(toRow: int, toCol: int, capturedRow: int, capturedCol: int)
      requires Valid()
      modifies this
      ensures Valid()
      ensures currentPlayer ==
        if IsValidCaptureInRow(Cells(), toRow, toCol, capturedRow, capturedCol, old(currentPlayer))
        then Toggle(old(currentPlayer)) else old(currentPlayer)
    {
      var hasOtherCaptureInRow := IsValidCaptureInRow(Cells(), toRow, toCol, capturedRow, capturedCol, currentPlayer);
      if hasOtherCaptureInRow {
        currentPlayer := Toggle(currentPlayer);
      }
    }

    /** Rewrites the starting layout; the side to move is left as it is. */
    method ResetGame()
      requires Valid()
      modifies board
      ensures Valid() && Cells() == InitialBoard()
      ensures currentPlayer == old(currentPlayer)
    {
      InitializeBoard();
    }

    method GetPieceAtPosition(row: int, col: int) returns (piece: Piece)
      requires Valid() && IsValidPosition(row, col)
      ensures piece == Cells()[row][col]
    {
      piece := board[row, col];
    }
  }
}
