# Checkers rules engine

This project models the rules engine of a WPF checkers game, together with the
enumerations it depends on.

The engine is the class `CheckersGameLogic`. Its state is an 8x8 board of
pieces, the side to move and a winner field. It provides:

- the starting layout;
- win detection by piece exhaustion;
- move validation, with mandatory capture for men and a diagonal walk for kings;
- move application: relocation, removal of the jumped piece, promotion and the
  turn hand-over.

The model is split into three modules:

- `pieces.dfy` (module `Pieces`): the `Piece` enumeration with its C# ordinal
  values (`PieceValue`), the `Player` enumeration, and the helpers `GetPlayer`, `GetMoveDirections`, the
  man-to-king map `KingOf` and the turn hand-over `Toggle`.
- `rules.dfy` (module `Rules`): every rule as a pure function of a board value
  (`Board`, an 8x8 `seq<seq<Piece>>`). `MoveValidation` is the answer of
  `IsValidMove` together with the board it leaves behind. `MoveOutcome` is the
  board and side to move after `MovePiece`. `CaptureOption`, `CaptureMove`,
  `Capture`, `IsValidCaptureMove` and `IsValidCaptureInRow` are the capture
  helpers. The lemmas here state what these rules mean.
- `game.dfy` (module `Game`): the class `CheckersGameLogic`, with the board as an
  `array2<Piece>` updated in place, `currentPlayer` and `winningPlayer`. Every
  method is proved against the matching function of `Rules`, read on the value
  `Cells()` of the array.

Source behaviours that are kept on purpose:

- `IsValidMove` reads the source square before any bounds check, so an on-board
  source square is a precondition. `MovePiece` validates nothing.
- The king branch of `IsValidMove` empties every opposing piece it can jump,
  even when the call then answers false.
- A king walk that stops early without having captured is accepted.
- `hasOpponentOnDiagonal` always equals `hasCapture`. `WalkKing` carries this as
  a loop invariant.
- Kings are never subject to the mandatory-capture rule.
- `HasCaptureOption` compares the neighbouring piece with the mover's exact
  value, so a man next to its own king counts as a capture option.
- `Capture` recognises only men as capturers, so `IsValidCaptureMove` is false
  when a king stands on the landing square.
- After a king moves two rows, the turn is handed over. It is then handed over
  again when `IsValidCaptureInRow` holds for the new side.
- `ResetGame` leaves `currentPlayer` as it is.
- `WinningPlayer` is set only by the constructor.
- `opponentPiece + 2` is modelled by the explicit map `KingOf`.
- C#'s `(to - from) / 2` truncates toward zero. This is written out as
  `HalfTowardZero`.

Each source method is a single body. The proofs split some of them into helper
methods, each covering one part of that body in the source's order:

- `IsValidMove` into `WalkKing`, `KingWalkIteration` and `CaptureOnDiagonal`;
- `HasCaptureOption` into `CellCapture` and `ScanDirections`;
- `IsValidCapture` into `NoObstacle`;
- `MovePiece` into `RelocateAndJump`, `Crown`, `RecheckKingRow` and `RecheckTurn`.

The rows of the table below cite the lines each helper covers.

## Model

| member | source | states |
|---|---|---|
| Pieces.KingOf | CheckersGame/MainWindow.xaml.cs:21-28 | The king of a man has the man's enum value + 2 and the same owner, which is what `opponentPiece + 2` relies on |
| Pieces.GetPlayer | CheckersGame/MainWindow.xaml.cs:55-64 | The owner is Empty exactly for the Empty cell. Men and kings map to their colour |
| Pieces.GetMoveDirections | CheckersGame/MainWindow.xaml.cs:66-77 | Returns no direction for Empty, and two opposite directions (+1 and -1) exactly for a king; every entry is +1 or -1 |
| Pieces.Toggle | CheckersGame/CheckersGameLogic.cs:512 | The turn hand-over always yields a real player, different from a real current player |
| Pieces.ToggleTwice | CheckersGame/CheckersGameLogic.cs:537-540 | Handing the turn over twice returns it to the original player |
| Rules.MoveDirectionsOpposeForward | CheckersGame/MainWindow.xaml.cs:66-77 | For a man, `GetMoveDirections` lists the opposite sign of the forward step `IsValidMove` uses (CheckersGameLogic.cs:120) |
| Rules.HalfTowardZero | CheckersGame/CheckersGameLogic.cs:501-502 | C# `x / 2` rounds toward zero: the result lies within one half of x/2, on the side of zero |
| Rules.HalfwayIsMidpoint | CheckersGame/CheckersGameLogic.cs:406-407 | For two coordinates two apart, from + (to - from)/2 is their midpoint |
| Rules.CountOwnedZero | CheckersGame/CheckersGameLogic.cs:32-43 | The counting loop gives zero for a side exactly when no cell holds its man or king |
| Rules.CountRowZero | CheckersGame/CheckersGameLogic.cs:34-42 | A row count is zero exactly when no cell of the row holds a counted piece |
| Rules.CountRowsZero | CheckersGame/CheckersGameLogic.cs:32-43 | A count over rows is zero exactly when no cell holds a counted piece |
| Rules.WinnerMeaning | CheckersGame/CheckersGameLogic.cs:45-57 | The winner is Black exactly when White has no piece, White exactly when White has a piece and Black none, and nobody exactly when both have pieces |
| Rules.CountSetCell | CheckersGame/CheckersGameLogic.cs:491-492 | Overwriting one cell changes a count by the piece that left and the piece that arrived |
| Rules.InitialLayout | CheckersGame/CheckersGameLogic.cs:60-74 | The starting layout has 12 White men, 12 Black men and no kings. Every piece stands on a square with odd row+col, with Black on rows 0-2 and White on rows 5-7 |
| Rules.InitialRowCount | CheckersGame/CheckersGameLogic.cs:64-72 | Each of rows 0-2 holds 4 Black men, each of rows 5-7 holds 4 White men, and rows 3-4 are empty |
| Rules.InitialNotOver | CheckersGame/CheckersGameLogic.cs:19-58 | In a new game `IsGameOver` reports no winner |
| Rules.InitialNoCaptureOption | CheckersGame/CheckersGameLogic.cs:222-342 | In the starting layout neither side has a capture option |
| Rules.OwnPieceIsCaptureOption | CheckersGame/CheckersGameLogic.cs:238-283 | A piece with a different piece of its own side diagonally next to it (a man next to its king, or a king next to its man) and an empty cell beyond is a capture option for its side, because the scan compares exact piece values |
| Rules.OpponentMan | CheckersGame/CheckersGameLogic.cs:443 | The piece `IsValidCapture` expects to capture is the opponent's man |
| Rules.CaptureMove | CheckersGame/CheckersGameLogic.cs:400-414 | `IsCaptureMove` holds exactly for a 2x2 jump onto an on-board empty cell over a man or king of the other side. The obstacle walk plays no part |
| Rules.Capture | CheckersGame/CheckersGameLogic.cs:379-397 | True exactly when the mover is a man, the landing cell is on the board and empty, and the jumped cell holds an opposing man or king |
| Rules.IsValidCaptureMove | CheckersGame/CheckersGameLogic.cs:346-377 | True exactly when a man (never a king) stands at the cell and has an opposing piece diagonally next to it with an empty on-board cell beyond |
| Rules.IsValidCaptureInRow | CheckersGame/CheckersGameLogic.cs:450-479 | True exactly when, on the left or on the right of the captured cell, there is an opening (`RowOpening`). The neighbour in the checked row must be on the board and not owned by the player: for a real player, Empty or held by the other side; for Empty, occupied. The cell beyond it must be on the board and Empty |
| Rules.KingStep | CheckersGame/CheckersGameLogic.cs:141-202 | One pass of the king walk, case by case. Off the board, or at a piece that is not taken (`Blocks`), the walk stops and accepts exactly when nothing was captured. At the empty destination it stops and accepts. At another empty cell it goes on with the board unchanged. At an opposing piece with an on-board Empty cell beyond (`Takes`), that piece is emptied and a capture is recorded |
| Rules.RejectedMoves | CheckersGame/CheckersGameLogic.cs:85-109 | `IsValidMove` answers false and leaves the board unchanged when the destination is off the board or occupied, the source is empty or belongs to the side not on move, or the move is not diagonal |
| Rules.ManMoveRule | CheckersGame/CheckersGameLogic.cs:112-125 | A man's move never changes the board. With a capture option it is accepted exactly for a 2x2 jump over an opposing piece onto an empty cell. Without one it is accepted exactly for one step forward and one column sideways onto an empty cell |
| Rules.MandatoryCapture | CheckersGame/CheckersGameLogic.cs:115-117 | While the side on move has a capture option, every one-row move of its men is rejected |
| Rules.KingMoveIsWalk | CheckersGame/CheckersGameLogic.cs:129-212 | A king's diagonal move to an empty cell is decided by the king walk alone; the capture option is not consulted |
| Rules.KingWalkEmptiesOnlyOpponents | CheckersGame/CheckersGameLogic.cs:170-195 | The king walk only ever changes cells that held an opposing piece, and only to Empty |
| Rules.KingWalkRejectsOnlyAfterCapture | CheckersGame/CheckersGameLogic.cs:204-211 | A king move is rejected only after the walk has emptied an opposing cell. Rejections still change the board |
| Rules.KingGlide | CheckersGame/CheckersGameLogic.cs:153-168 | A king walking over empty cells to an empty destination is accepted and changes nothing |
| Rules.KingBlockedByOwnPiece | CheckersGame/CheckersGameLogic.cs:196-200 | A king walk stopped by its own piece before the destination, with no capture, is accepted and changes nothing |
| Rules.KingBlockedAfterCapture | CheckersGame/CheckersGameLogic.cs:204-208 | A king walk that has captured, then glides over empty cells and is blocked before the destination, is rejected; the board keeps the captures |
| Rules.KingCaptureThenBlocked | CheckersGame/CheckersGameLogic.cs:170-208 | A White king moving (7,0) to (3,4) over a Black man on (6,1), blocked by its own man on (4,3): `IsValidMove` answers false and leaves (6,1) Empty |
| Rules.MoveCells | CheckersGame/CheckersGameLogic.cs:487-542 | After `MovePiece` the destination holds the moved piece, crowned on the far row. The source and the jumped cell are Empty, and every other cell is unchanged |
| Rules.JumpStageCells | CheckersGame/CheckersGameLogic.cs:489-505 | After relocation the destination holds the piece. The source and the midpoint of a 2x2 move are Empty, and every other cell is unchanged |
| Rules.CrownStageCells | CheckersGame/CheckersGameLogic.cs:520-525 | Crowning changes only the destination |
| Rules.KingRowStageCells | CheckersGame/CheckersGameLogic.cs:527-534 | The king stage changes only the halfway cell of a two-row king move |
| Rules.Promoted | CheckersGame/CheckersGameLogic.cs:520-525 | Crowning never changes the piece's owner |
| Rules.Promotion | CheckersGame/CheckersGameLogic.cs:520-525 | A White man reaching row 0 becomes WhiteKing and a Black man reaching row 7 becomes BlackKing. Any other piece lands unchanged |
| Rules.QuietMoveKeepsCounts | CheckersGame/CheckersGameLogic.cs:487-518 | A diagonal move onto an empty cell that is not a two-row jump keeps every side's piece count |
| Rules.JumpBoard | CheckersGame/CheckersGameLogic.cs:489-505 | A 2x2 move rewrites exactly three cells: source, midpoint and destination |
| Rules.JumpCount | CheckersGame/CheckersGameLogic.cs:489-505 | A side's count after a 2x2 move follows from the three rewritten cells |
| Rules.JumpRemovesOnePiece | CheckersGame/CheckersGameLogic.cs:499-505 | A 2x2 jump over an opposing piece removes exactly one opposing piece and keeps the mover's count |
| Rules.QuietMoveSwitchesTurn | CheckersGame/CheckersGameLogic.cs:514-518 | A diagonal move that is not a 2x2 jump always hands the turn over |
| Rules.ManJumpTurn | CheckersGame/CheckersGameLogic.cs:507-512 | After a man's 2x2 move, the side keeps the turn exactly when the landed piece has an opposing piece next to it with an empty on-board cell beyond |
| Rules.CrowningKeepsJumps | CheckersGame/CheckersGameLogic.cs:520-525 | Replacing a piece by another of the same side leaves its jump options unchanged |
| Rules.KingJumpTurn | CheckersGame/CheckersGameLogic.cs:527-541 | After a king's 2x2 move the turn passes, and passes back exactly when `IsValidCaptureInRow` holds for the new side on the final board |
| Rules.KingJumpKeepsTurn | CheckersGame/CheckersGameLogic.cs:453-476 | After a king's 2x2 move the checked row is the starting row and the vacated starting square passes the neighbour test, so the mover keeps the turn whenever the cell behind the starting square, on the line of the move, is on the board and Empty |
| Rules.JumpLeavesOpening | CheckersGame/CheckersGameLogic.cs:489-505 | On the board after a 2x2 move, the empty starting square and the untouched cell behind it form an opening around the midpoint |
| Rules.KingRowTurn | CheckersGame/CheckersGameLogic.cs:527-541 | For a king's 2x2 move, the halfway cell is the midpoint and the turn toggles exactly when `IsValidCaptureInRow` holds |
| Rules.OpeningMove | CheckersGame/CheckersGameLogic.cs:112-125 | From the starting layout, White's man at (5,0) may step to (4,1); the move hands the turn to Black |
| Game.CheckersGameLogic.constructor | CheckersGame/CheckersGameLogic.cs:19-25 | A new game has the starting layout, White to move and no winner |
| Game.CheckersGameLogic.IsGameOver | CheckersGame/CheckersGameLogic.cs:27-58 | Reports the winner by piece exhaustion (see `WinnerMeaning`), and over exactly when there is a winner. It writes nothing |
| Game.CheckersGameLogic.InitializeBoard | CheckersGame/CheckersGameLogic.cs:60-74 | The board becomes the starting layout |
| Game.CheckersGameLogic.IsValidPiece | CheckersGame/CheckersGameLogic.cs:76-84 | True exactly when the cell holds a man or a king |
| Game.CheckersGameLogic.IsValidMove | CheckersGame/CheckersGameLogic.cs:85-217 | Answer and board after the call are those of `MoveValidation`, including the cells the king walk empties. The side to move is kept |
| Game.CheckersGameLogic.WalkKing | CheckersGame/CheckersGameLogic.cs:129-211 | The king branch's loop yields the answer and board of `KingWalk` |
| Game.CheckersGameLogic.KingWalkIteration | CheckersGame/CheckersGameLogic.cs:143-201 | One pass of the walk's loop body: a break or return carries the verdict of `KingWalk` with the board untouched; a continue moves to the next cell, and the walk from there, on the new board, has the same verdict |
| Game.CheckersGameLogic.CaptureOnDiagonal | CheckersGame/CheckersGameLogic.cs:170-195 | An opposing piece with an empty on-board cell beyond is emptied and reported. Otherwise nothing changes |
| Game.CheckersGameLogic.ScanDirections | CheckersGame/CheckersGameLogic.cs:238-283 | The four jump tests from one cell find a pattern exactly when `ScanFindsAny` holds |
| Game.CheckersGameLogic.HasCaptureOption | CheckersGame/CheckersGameLogic.cs:222-342 | True exactly when some piece of the player has a jump pattern next to it (`CaptureOption`). It writes nothing |
| Game.CheckersGameLogic.CellCapture | CheckersGame/CheckersGameLogic.cs:228-337 | The per-cell test is true exactly when the cell holds the player's man or king and a jump pattern exists from it |
| Game.CheckersGameLogic.IsValidCapture | CheckersGame/CheckersGameLogic.cs:416-449 | True exactly when the landing cell is on the board and empty, the path to the captured cell is clear, and that cell holds the opponent's man or king |
| Game.CheckersGameLogic.NoObstacle | CheckersGame/CheckersGameLogic.cs:427-440 | The obstacle loop succeeds exactly when every cell strictly between the mover and the captured cell is empty |
| Game.CheckersGameLogic.IsCaptureMove | CheckersGame/CheckersGameLogic.cs:400-414 | Answers `CaptureMove`: a 2x2 jump over an opposing man or king onto an empty on-board cell |
| Game.CheckersGameLogic.MovePiece | CheckersGame/CheckersGameLogic.cs:487-542 | Board and side to move afterwards are those of `MoveOutcome` (cells per `MoveCells`, turn per `QuietMoveSwitchesTurn`, `ManJumpTurn` and `KingJumpTurn`) |
| Game.CheckersGameLogic.RelocateAndJump | CheckersGame/CheckersGameLogic.cs:489-518 | Relocation, removal of a 2x2 move's midpoint and the turn decision, as `JumpStage` |
| Game.CheckersGameLogic.Crown | CheckersGame/CheckersGameLogic.cs:520-525 | Promotion on the destination, as `CrownStage` |
| Game.CheckersGameLogic.RecheckKingRow | CheckersGame/CheckersGameLogic.cs:527-541 | The extra step for a king moving two rows, as `KingRowStage` |
| Game.CheckersGameLogic.RecheckTurn | CheckersGame/CheckersGameLogic.cs:537-540 | The side to move toggles exactly when `IsValidCaptureInRow` holds on the current board for the side to move; the board is untouched |
| Game.CheckersGameLogic.ResetGame | CheckersGame/CheckersGameLogic.cs:544-549 | The board becomes the starting layout and the side to move is unchanged |
| Game.CheckersGameLogic.GetPieceAtPosition | CheckersGame/CheckersGameLogic.cs:552-555 | Returns the piece on the given cell |

## Left out

- The `MainWindow` class (click handling, button state, sprites, turn text) is
  WPF user interface code, not game logic.
- The `Move` class is a data holder that the engine never uses.
- The read-only properties `CurrentPlayer` and `WinningPlayer` are plain field
  reads. They appear as the fields `currentPlayer` and `winningPlayer`.
- `IsValidPosition` is the predicate `Rules.IsValidPosition`. Its result is its
  own definition, so it has no contract of its own.
- Out-of-range array indices raise exceptions in C#. The model makes those
  indices preconditions instead:
  - the source square of `IsValidMove` and `MovePiece`;
  - the destination of `MovePiece`;
  - the cell of `IsValidPiece` and `GetPieceAtPosition`.
- Game.CheckersGameLogic.IsValidCapture: requires a capture shape. The captured
  cell must lie on a diagonal from the mover, with the landing cell right
  beyond it. The only caller, `IsCaptureMove`, always passes such a 2x2 jump.
  With other arguments the source can index off the board, which raises an
  exception in C#; those arguments are not modelled.
- Game.CheckersGameLogic.NoObstacle: requires the captured cell on a diagonal
  from the mover. Otherwise the source's obstacle loop can index off the
  board.
- `GetMoveDirections` is modelled, but nothing in the engine calls it.
