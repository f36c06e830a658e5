/** The rules of `CheckersGameLogic` stated as pure functions of a board value.
    The class in module Game runs the same rules imperatively on an `array2`
    and is proved to agree with the functions here; the lemmas of this module
    then say what those rules mean. */
module Rules {
  import opened Pieces

  const Size := 8

  /** A snapshot of the 8x8 board: `g[row][col]`. */
  type Board = g: seq<seq<Piece>> | |g| == Size && forall r | 0 <= r < |g| :: |g[r]| == Size
    witness seq(Size, _ => seq(Size, _ => Piece.Empty))

  /** Bounds test of `IsValidPosition`; the board dimensions are fixed at 8. */
  predicate IsValidPosition(row: int, col: int)
  {
    0 <= row < Size && 0 <= col < Size
  }

  function Abs(x: int): nat
  {
    if x < 0 then -x else x
  }

  /** C#'s `x / 2` on `int`, which truncates toward zero (Dafny's `/` does not for negative `x`). */
  function HalfTowardZero(x: int): (h: int)
    ensures 0 <= x ==> 0 <= h && x - 1 <= 2 * h <= x
    ensures x < 0 ==> h <= 0 && x <= 2 * h <= x + 1
  {
    if x < 0 then -((-x) / 2) else x / 2
  }

  /** Two cells apart, halving the offset toward zero lands on the midpoint. */
  lemma HalfwayIsMidpoint(a: int, b: int)
    requires Abs(b - a) == 2
    ensures a + HalfTowardZero(b - a) == (a + b) / 2
  {
  }

  /** The board with one cell overwritten. */
  function SetCell(g: Board, row: int, col: int, p: Piece): (g': Board)
    requires IsValidPosition(row, col)
    ensures g'[row][col] == p
    ensures forall r, c | IsValidPosition(r, c) && (r != row || c != col) :: g'[r][c] == g[r][c]
  {
    g[row := g[row][col := p]]
  }

  /** Two boards that agree on every cell are equal. */
  lemma BoardsEqual(a: Board, b: Board)
    requires forall r, c | IsValidPosition(r, c) :: a[r][c] == b[r][c]
    ensures a == b
  {
    forall r | 0 <= r < Size
      ensures a[r] == b[r]
    {
      assert forall c | 0 <= c < Size :: a[r][c] == b[r][c];
    }
  }

  // ---------------------------------------------------------------------------
  // Starting layout (InitializeBoard)

  /** What `InitializeBoard` writes into cell (row, col). */
  function InitialPiece(row: int, col: int): Piece
  {
    if row < 3 && (row + col) % 2 != 0 then Piece.Black
    else if row > 4 && (row + col) % 2 != 0 then Piece.White
    else Piece.Empty
  }

  function InitialBoard(): (g: Board)
    ensures forall r, c | IsValidPosition(r, c) :: g[r][c] == InitialPiece(r, c)
  {
    seq(Size, r => seq(Size, c => InitialPiece(r, c)))
  }

  // ---------------------------------------------------------------------------
  // Counting pieces (IsGameOver)

  /** The pieces a player owns: a man and its king. */
  function Owned(p: Player): (s: set<Piece>)
    ensures forall q :: q in s <==> q != Piece.Empty && GetPlayer(q) == p
  {
    if p == Player.White then {Piece.White, Piece.WhiteKing}
    else if p == Player.Black then {Piece.Black, Piece.BlackKing}
    else {}
  }

  predicate Owns(p: Player, piece: Piece)
  {
    piece != Piece.Empty && GetPlayer(piece) == p
  }

  /** Number of cells of `row` holding one of `kinds`. */
  function CountRow(row: seq<Piece>, kinds: set<Piece>): nat
  {
    if row == [] then 0
    else CountRow(row[..|row| - 1], kinds) + (if row[|row| - 1] in kinds then 1 else 0)
  }

  /** Number of cells of `rows` holding one of `kinds`. */
  function CountRows(rows: seq<seq<Piece>>, kinds: set<Piece>): nat
  {
    if rows == [] then 0
    else CountRows(rows[..|rows| - 1], kinds) + CountRow(rows[|rows| - 1], kinds)
  }

  function CountOwned(g: Board, p: Player): nat
  {
    CountRows(g, Owned(p))
  }

  /** The winner `IsGameOver` reports: Black when White has no piece left,
      else White when Black has none, else nobody. */
  function Winner(g: Board): Player
  {
    if CountOwned(g, Player.White) == 0 then Player.Black
    else if CountOwned(g, Player.Black) == 0 then Player.White
    else Player.Empty
  }

  predicate HasPieces(g: Board, p: Player)
  {
    exists r, c | 0 <= r < Size && 0 <= c < Size :: Owns(p, g[r][c])
  }

  lemma {:induction false} CountRowZero(row: seq<Piece>, kinds: set<Piece>)
    ensures CountRow(row, kinds) == 0 <==> forall c | 0 <= c < |row| :: row[c] !in kinds
  {
    if row != [] {
      var n := |row| - 1;
      CountRowZero(row[..n], kinds);
      assert forall c | 0 <= c < n :: row[..n][c] == row[c];
    }
  }

  lemma {:induction false} CountRowsZero(rows: seq<seq<Piece>>, kinds: set<Piece>)
    ensures CountRows(rows, kinds) == 0 <==>
      forall r, c | 0 <= r < |rows| && 0 <= c < |rows[r]| :: rows[r][c] !in kinds
  {
    if rows != [] {
      var n := |rows| - 1;
      CountRowsZero(rows[..n], kinds);
      CountRowZero(rows[n], kinds);
      assert forall r | 0 <= r < n :: rows[..n][r] == rows[r];
    }
  }

  /** A side's count is zero exactly when none of its pieces is on the board. */
  lemma CountOwnedZero(g: Board, p: Player)
    ensures CountOwned(g, p) == 0 <==> !HasPieces(g, p)
  {
    CountRowsZero(g, Owned(p));
  }

  /** `IsGameOver` names Black the winner iff no White man or king is left,
      White iff Black has none but White has one, and nobody iff both have pieces. */
  lemma WinnerMeaning(g: Board)
    ensures Winner(g) == Player.Black <==> !HasPieces(g, Player.White)
    ensures Winner(g) == Player.White <==> HasPieces(g, Player.White) && !HasPieces(g, Player.Black)
    ensures Winner(g) == Player.Empty <==> HasPieces(g, Player.White) && HasPieces(g, Player.Black)
  {
    CountOwnedZero(g, Player.White);
    CountOwnedZero(g, Player.Black);
  }

  lemma {:induction false} CountRowUpdate(row: seq<Piece>, i: int, v: Piece, kinds: set<Piece>)
    requires 0 <= i < |row|
    ensures CountRow(row[i := v], kinds) ==
      CountRow(row, kinds) - (if row[i] in kinds then 1 else 0) + (if v in kinds then 1 else 0)
  {
    var n := |row| - 1;
    if i == n {
      assert row[i := v][..n] == row[..n];
    } else {
      assert row[i := v][..n] == row[..n][i := v];
      CountRowUpdate(row[..n], i, v, kinds);
    }
  }

  lemma {:induction false} CountRowsUpdate(rows: seq<seq<Piece>>, i: int, j: int, v: Piece, kinds: set<Piece>)
    requires 0 <= i < |rows| && 0 <= j < |rows[i]|
    ensures CountRows(rows[i := rows[i][j := v]], kinds) ==
      CountRows(rows, kinds) - (if rows[i][j] in kinds then 1 else 0) + (if v in kinds then 1 else 0)
  {
    var n := |rows| - 1;
    var updated := rows[i := rows[i][j := v]];
    if i == n {
      assert updated[..n] == rows[..n];
      CountRowUpdate(rows[i], j, v, kinds);
    } else {
      assert updated[..n] == rows[..n][i := rows[..n][i][j := v]];
      CountRowsUpdate(rows[..n], i, j, v, kinds);
    }
  }

  /** Overwriting one cell changes a count by what left and what arrived. */
  lemma CountSetCell(g: Board, row: int, col: int, v: Piece, kinds: set<Piece>)
    requires IsValidPosition(row, col)
    ensures CountRows(SetCell(g, row, col, v), kinds) ==
      CountRows(g, kinds) - (if g[row][col] in kinds then 1 else 0) + (if v in kinds then 1 else 0)
  {
    CountRowsUpdate(g, row, col, v, kinds);
  }

  lemma {:induction false} AlternatingRowCount(s: seq<Piece>, x: Piece, parity: int, kinds: set<Piece>)
    requires parity == 0 || parity == 1
    requires Piece.Empty !in kinds
    requires forall c | 0 <= c < |s| :: s[c] == (if (c + parity) % 2 != 0 then x else Piece.Empty)
    ensures CountRow(s, kinds) == (if x in kinds then (|s| + parity) / 2 else 0)
  {
    if s != [] {
      var n := |s| - 1;
      assert forall c | 0 <= c < n :: s[..n][c] == s[c];
      AlternatingRowCount(s[..n], x, parity, kinds);
    }
  }

  lemma InitialRowCount(r: int, kinds: set<Piece>)
    requires 0 <= r < Size
    requires Piece.Empty !in kinds
    ensures CountRow(InitialBoard()[r], kinds) ==
      if r < 3 then (if Piece.Black in kinds then 4 else 0)
      else if r > 4 then (if Piece.White in kinds then 4 else 0)
      else 0
  {
    var s := InitialBoard()[r];
    var parity := r % 2;
    var x := if r < 3 then Piece.Black else if r > 4 then Piece.White else Piece.Empty;
    forall c | 0 <= c < Size
      ensures s[c] == (if (c + parity) % 2 != 0 then x else Piece.Empty)
    {
      assert (r + c) % 2 == (c + parity) % 2;
    }
    AlternatingRowCount(s, x, parity, kinds);
  }

  lemma {:induction false} InitialPrefixCount(n: int, kinds: set<Piece>)
    requires 0 <= n <= Size
    requires Piece.Empty !in kinds
    ensures CountRows(InitialBoard()[..n], kinds) ==
      (if Piece.Black in kinds then 4 * (if n < 3 then n else 3) else 0) +
      (if Piece.White in kinds then 4 * (if n > 5 then n - 5 else 0) else 0)
  {
    if n > 0 {
      assert InitialBoard()[..n][..n - 1] == InitialBoard()[..n - 1];
      InitialPrefixCount(n - 1, kinds);
      InitialRowCount(n - 1, kinds);
    }
  }

  /** The starting layout: 12 men per side, no kings, every piece on a square
      with odd row+col, Black on rows 0-2 and White on rows 5-7. */
  lemma InitialLayout()
    ensures CountRows(InitialBoard(), {Piece.White}) == 12
    ensures CountRows(InitialBoard(), {Piece.Black}) == 12
    ensures CountRows(InitialBoard(), {Piece.WhiteKing, Piece.BlackKing}) == 0
    ensures CountOwned(InitialBoard(), Player.White) == 12
    ensures CountOwned(InitialBoard(), Player.Black) == 12
    ensures forall r, c | IsValidPosition(r, c) && InitialBoard()[r][c] != Piece.Empty ::
      (r + c) % 2 == 1 && (InitialBoard()[r][c] == Piece.Black <==> r < 3) &&
      (InitialBoard()[r][c] == Piece.White <==> r > 4)
  {
    assert InitialBoard()[..Size] == InitialBoard();
    InitialPrefixCount(Size, {Piece.White});
    InitialPrefixCount(Size, {Piece.Black});
    InitialPrefixCount(Size, {Piece.WhiteKing, Piece.BlackKing});
    InitialPrefixCount(Size, Owned(Player.White));
    InitialPrefixCount(Size, Owned(Player.Black));
  }

  /** At the start both sides have pieces, so `IsGameOver` reports no winner. */
  lemma InitialNotOver()
    ensures Winner(InitialBoard()) == Player.Empty
  {
    InitialLayout();
  }

  // ---------------------------------------------------------------------------
  // Capture scan (HasCaptureOption)

  /** One of the four tests of the scan: from (row, col) in direction (dr, dc)
      the cell two steps away is on the board and Empty, and the adjacent cell
      is occupied by a piece whose value differs from the scanned piece's. */
  predicate ScanFinds(g: Board, row: int, col: int, dr: int, dc: int)
    requires IsValidPosition(row, col)
    requires (dr == 1 || dr == -1) && (dc == 1 || dc == -1)
  {
    IsValidPosition(row + 2 * dr, col + 2 * dc) &&
    g[row + 2 * dr][col + 2 * dc] == Piece.Empty &&
    g[row + dr][col + dc] != g[row][col] &&
    g[row + dr][col + dc] != Piece.Empty
  }

  predicate ScanFindsAny(g: Board, row: int, col: int)
    requires IsValidPosition(row, col)
  {
    ScanFinds(g, row, col, -1, -1) || ScanFinds(g, row, col, -1, 1) ||
    ScanFinds(g, row, col, 1, -1) || ScanFinds(g, row, col, 1, 1)
  }

  /** A piece of `p` on (r, c) for which the scan finds a jump pattern. */
  predicate CaptureFrom(g: Board, p: Player, r: int, c: int)
    requires IsValidPosition(r, c)
  {
    Owns(p, g[r][c]) && ScanFindsAny(g, r, c)
  }

  /** What `HasCaptureOption(p)` answers. */
  predicate CaptureOption(g: Board, p: Player)
  {
    exists r, c | 0 <= r < Size && 0 <= c < Size :: CaptureFrom(g, p, r, c)
  }

  /** The scan compares exact piece values: a piece next to a different piece
      of its own side (a man next to its king, a king next to its man) with an
      empty cell beyond is a capture option for that side. */
  lemma OwnPieceIsCaptureOption(g: Board, row: int, col: int, dr: int, dc: int)
    requires IsValidPosition(row, col) && (dr == 1 || dr == -1) && (dc == 1 || dc == -1)
    requires IsValidPosition(row + 2 * dr, col + 2 * dc)
    requires g[row + 2 * dr][col + 2 * dc] == Piece.Empty
    requires g[row][col] != Piece.Empty && g[row + dr][col + dc] != g[row][col]
    requires Owns(GetPlayer(g[row][col]), g[row + dr][col + dc])
    ensures CaptureOption(g, GetPlayer(g[row][col])) && Owns(GetPlayer(g[row][col]), g[row + dr][col + dc])
  {
    assert ScanFinds(g, row, col, dr, dc);
    assert CaptureFrom(g, GetPlayer(g[row][col]), row, col);
  }

  /** No side has a capture option in the starting layout. */
  lemma InitialNoCaptureOption(p: Player)
    ensures !CaptureOption(InitialBoard(), p)
  {
    var g := InitialBoard();
    forall r, c | IsValidPosition(r, c)
      ensures !CaptureFrom(g, p, r, c)
    {
      if Owns(p, g[r][c]) {
        forall dr, dc | (dr == 1 || dr == -1) && (dc == 1 || dc == -1)
          ensures !ScanFinds(g, r, c, dr, dc)
        {
          if IsValidPosition(r + 2 * dr, c + 2 * dc) && g[r + dr][c + dc] != Piece.Empty {
            InitialNeighbour(r, c, dr, dc);
          }
        }
      }
    }
  }

  /** Diagonal neighbours that are both occupied in the starting layout hold
      the same piece. */
  lemma InitialNeighbour(r: int, c: int, dr: int, dc: int)
    requires (dr == 1 || dr == -1) && (dc == 1 || dc == -1)
    requires InitialPiece(r, c) != Piece.Empty && InitialPiece(r + dr, c + dc) != Piece.Empty
    ensures InitialPiece(r + dr, c + dc) == InitialPiece(r, c)
  {
    assert (r + dr + c + dc) % 2 == (r + c) % 2;
  }

  // ---------------------------------------------------------------------------
  // Capture tests (IsValidCapture, IsCaptureMove, Capture, IsValidCaptureMove,
  // IsValidCaptureInRow)

  /** `captureRow < fromRow ? -1 : 1`. */
  function Sign(x: int): int
  {
    if x < 0 then -1 else 1
  }

  /** The cell `k` steps from `start` going in direction `step`. */
  function Ray(start: int, step: int, k: int): int
  {
    if step < 0 then start - k else start + k
  }

  /** Arguments `IsValidCapture` is called with: the captured cell lies on a
      diagonal from the mover, and the landing cell is the next one beyond it. */
  predicate CaptureShape(fr: int, fc: int, cr: int, cc: int, lr: int, lc: int)
  {
    Abs(cr - fr) == Abs(cc - fc) >= 1 && lr == cr + Sign(cr - fr) && lc == cc + Sign(cc - fc)
  }

  /** The first n - 1 cells from (fr, fc) in direction (sr, sc) are Empty. */
  predicate PathClear(g: Board, fr: int, fc: int, sr: int, sc: int, n: int)
    requires IsValidPosition(fr, fc) && IsValidPosition(Ray(fr, sr, n), Ray(fc, sc, n))
  {
    forall k | 1 <= k < n :: g[Ray(fr, sr, k)][Ray(fc, sc, k)] == Piece.Empty
  }

  /** `Player.White ? Piece.Black : Piece.White`: the man `IsValidCapture` expects to capture. */
  function OpponentMan(player: Player): (m: Piece)
    ensures IsMan(m) && GetPlayer(m) == Toggle(player)
  {
    if player == Player.White then Piece.Black else Piece.White
  }

  /** What `IsValidCapture` answers. */
  predicate ValidCapture(g: Board, fr: int, fc: int, cr: int, cc: int, lr: int, lc: int, player: Player)
    requires IsValidPosition(fr, fc) && CaptureShape(fr, fc, cr, cc, lr, lc)
  {
    IsValidPosition(lr, lc) &&
    g[lr][lc] == Piece.Empty &&
    PathClear(g, fr, fc, Sign(cr - fr), Sign(cc - fc), Abs(cr - fr)) &&
    (g[cr][cc] == OpponentMan(player) || g[cr][cc] == KingOf(OpponentMan(player)))
  }

  /** `IsCaptureMove`: a 2x2 jump onto an empty cell over a man or king of the
      side that is not `player`; the obstacle walk of `IsValidCapture` never
      runs for such a jump. */
  function CaptureMove(g: Board, fr: int, fc: int, tr: int, tc: int, player: Player): (r: bool)
    requires IsValidPosition(fr, fc)
    ensures r <==>
      Abs(tr - fr) == 2 && Abs(tc - fc) == 2 && IsValidPosition(tr, tc) &&
      g[tr][tc] == Piece.Empty && Owns(Toggle(player), g[(fr + tr) / 2][(fc + tc) / 2])
  {
    if Abs(tr - fr) == 2 && Abs(tc - fc) == 2 then
      ValidCapture(g, fr, fc, fr + HalfTowardZero(tr - fr), fc + HalfTowardZero(tc - fc), tr, tc, player)
    else
      false
  }

  /** `Capture`: only a White or Black man is a capturer; it needs an opposing
      man or king at (capRow, capCol) and an empty landing cell on the board.
      `player` is unused, as in the source. */
  function Capture(g: Board, fromRow: int, fromCol: int, row: int, col: int,
                   capRow: int, capCol: int, player: Player): (r: bool)
    requires IsValidPosition(fromRow, fromCol)
    requires Abs(capRow - fromRow) == 1 && Abs(capCol - fromCol) == 1
    requires row == 2 * capRow - fromRow && col == 2 * capCol - fromCol
    ensures r <==>
      IsMan(g[fromRow][fromCol]) && IsValidPosition(row, col) && g[row][col] == Piece.Empty &&
      Owns(Toggle(GetPlayer(g[fromRow][fromCol])), g[capRow][capCol])
  {
    if !IsValidPosition(row, col) then false
    else
      var piece := g[fromRow][fromCol];
      var captured := g[capRow][capCol];
      if (piece == Piece.White && (captured == Piece.Black || captured == Piece.BlackKing)) ||
         (piece == Piece.Black && (captured == Piece.White || captured == Piece.WhiteKing))
      then g[row][col] == Piece.Empty
      else false
  }

  /** The piece at (row, col) has an opposing piece next to it in direction
      (dr, dc) and an empty cell on the board beyond that. */
  predicate JumpToward(g: Board, row: int, col: int, dr: int, dc: int)
    requires IsValidPosition(row, col)
    requires (dr == 1 || dr == -1) && (dc == 1 || dc == -1)
  {
    IsValidPosition(row + 2 * dr, col + 2 * dc) &&
    g[row + 2 * dr][col + 2 * dc] == Piece.Empty &&
    Owns(Toggle(GetPlayer(g[row][col])), g[row + dr][col + dc])
  }

  predicate JumpAvailable(g: Board, row: int, col: int)
    requires IsValidPosition(row, col)
  {
    JumpToward(g, row, col, -1, -1) || JumpToward(g, row, col, -1, 1) ||
    JumpToward(g, row, col, 1, -1) || JumpToward(g, row, col, 1, 1)
  }

  /** `IsValidCaptureMove`: true exactly when a man stands at (row, col) and
      can jump in one of the four directions; for a king it is always false,
      because `Capture` recognises only men. */
  function IsValidCaptureMove(g: Board, row: int, col: int, player: Player): (r: bool)
    requires IsValidPosition(row, col)
    ensures r <==> IsMan(g[row][col]) && JumpAvailable(g, row, col)
  {
    var piece := g[row][col];
    var dir := if player == Player.White then -1 else 1;
    ((IsMan(piece) || IsKing(piece)) &&
      (Capture(g, row, col, row + 2 * dir, col - 2, row + dir, col - 1, player) ||
       Capture(g, row, col, row + 2 * dir, col + 2, row + dir, col + 1, player) ||
       Capture(g, row, col, row - 2 * dir, col - 2, row - dir, col - 1, player) ||
       Capture(g, row, col, row - 2 * dir, col + 2, row - dir, col + 1, player))) ||
    (IsKing(piece) &&
      (Capture(g, row, col, row - 2, col - 2, row - 1, col - 1, player) ||
       Capture(g, row, col, row - 2, col + 2, row - 1, col + 1, player) ||
       Capture(g, row, col, row + 2, col - 2, row + 1, col - 1, player) ||
       Capture(g, row, col, row + 2, col + 2, row + 1, col + 1, player)))
  }

  /** The opening `IsValidCaptureInRow` looks for on side `s` (-1 left, +1
      right) of the captured cell, in row direction `d`: the neighbour
      (capRow+d, capCol+s) is on the board and not owned by `player` (for a
      real player: Empty or held by the other side; for Empty: occupied), and
      the cell (capRow+2d, capCol+2s) beyond it is on the board and Empty. */
  predicate RowOpening(g: Board, capRow: int, capCol: int, d: int, s: int, player: Player)
  {
    IsValidPosition(capRow + d, capCol + s) &&
    IsValidPosition(capRow + 2 * d, capCol + 2 * s) && g[capRow + 2 * d][capCol + 2 * s] == Piece.Empty &&
    if player == Player.Empty then g[capRow + d][capCol + s] != Piece.Empty
    else g[capRow + d][capCol + s] == Piece.Empty || Owns(Toggle(player), g[capRow + d][capCol + s])
  }

  /** `IsValidCaptureInRow`: with `dir` = +1 when the king's row is above the
      captured row and -1 otherwise, true exactly when there is an opening on
      the left or on the right of the captured cell. */
  function IsValidCaptureInRow(g: Board, kingRow: int, kingCol: int, capRow: int, capCol: int,
                               player: Player): (r: bool)
    ensures var d := if kingRow < capRow then 1 else -1;
      r <==> RowOpening(g, capRow, capCol, d, -1, player) || RowOpening(g, capRow, capCol, d, 1, player)
  {
    var dir := if kingRow < capRow then 1 else -1;
    var checkRow := capRow + dir;
    (IsValidPosition(checkRow, capCol - 1) && GetPlayer(g[checkRow][capCol - 1]) != player &&
     IsValidPosition(checkRow + dir, capCol - 2) && g[checkRow + dir][capCol - 2] == Piece.Empty) ||
    (IsValidPosition(checkRow, capCol + 1) && GetPlayer(g[checkRow][capCol + 1]) != player &&
     IsValidPosition(checkRow + dir, capCol + 2) && g[checkRow + dir][capCol + 2] == Piece.Empty)
  }

  // ---------------------------------------------------------------------------
  // Move validation (IsValidMove)

  /** The answer of `IsValidMove` and the board it leaves behind (its king
      branch may empty cells). */
  datatype Validation = Validation(accepted: bool, board: Board)

  /** Row step of a man's plain move: White moves toward row 0, Black toward row 7. */
  function ForwardStep(man: Piece): int
  {
    if man == Piece.White then -1 else 1
  }

  /** `diff > 0 ? 1 : -1`. */
  function Step(diff: int): int
  {
    if diff > 0 then 1 else -1
  }

  /** The opponent test of the king walk: a White king against a Black man or
      king, a Black king against a White man or king. */
  predicate Opposes(king: Piece, other: Piece)
  {
    (king == Piece.WhiteKing && (other == Piece.Black || other == Piece.BlackKing)) ||
    (king == Piece.BlackKing && (other == Piece.White || other == Piece.WhiteKing))
  }

  /** The man branch of `IsValidMove`. */
  function ManMoveAccepted(g: Board, current: Player, fr: int, fc: int, tr: int, tc: int): bool
    requires IsValidPosition(fr, fc)
  {
    var hasCapture := CaptureOption(g, current);
    if hasCapture && !CaptureMove(g, fr, fc, tr, tc, current) then false
    else if tr - fr == ForwardStep(g[fr][fc]) && Abs(tc - fc) == 1 then true
    else hasCapture
  }

  /** What one cell of the king walk decides: stop with a verdict, or go on
      from the next cell with a (possibly updated) board. */
  datatype WalkStep = Stop(verdict: Validation) | Next(after: Board, row: int, col: int, captured: bool)

  /** The king walk takes the piece on (r, c): it is an opposing piece and
      the next cell in the walk's direction is on the board and Empty. */
  predicate Takes(g: Board, king: Piece, r: int, c: int, sr: int, sc: int)
    requires IsValidPosition(r, c)
  {
    Opposes(king, g[r][c]) && IsValidPosition(r + sr, c + sc) && g[r + sr][c + sc] == Piece.Empty
  }

  /** The king walk cannot go on at (r, c): it is off the board, or holds a
      piece that is not taken. */
  predicate Blocks(g: Board, king: Piece, r: int, c: int, sr: int, sc: int)
  {
    !IsValidPosition(r, c) || (g[r][c] != Piece.Empty && !Takes(g, king, r, c, sr, sc))
  }

  /** One iteration of the king walk of `IsValidMove`, from the cell (row, col)
      already passed. It steps one cell; at a block the walk stops and
      accepts only when nothing was captured; reaching the empty destination
      accepts; an empty cell elsewhere is passed; a piece that is taken is
      emptied and recorded as captured. The source's second flag always
      equals `captured`, so the destination case accepts either way. */
  function KingStep(g: Board, king: Piece, row: int, col: int, sr: int, sc: int,
                    toRow: int, toCol: int, captured: bool): (s: WalkStep)
    ensures s.Next? ==> s.row == row + sr && s.col == col + sc && IsValidPosition(s.row, s.col)
    ensures Blocks(g, king, row + sr, col + sc, sr, sc) ==> s == Stop(Validation(!captured, g))
    ensures IsValidPosition(row + sr, col + sc) && g[row + sr][col + sc] == Piece.Empty ==>
      s == if row + sr == toRow && col + sc == toCol then Stop(Validation(true, g))
           else Next(g, row + sr, col + sc, captured)
    ensures IsValidPosition(row + sr, col + sc) && Takes(g, king, row + sr, col + sc, sr, sc) ==>
      s == Next(SetCell(g, row + sr, col + sc, Piece.Empty), row + sr, col + sc, true)
  {
    var r, c := row + sr, col + sc;
    if !IsValidPosition(r, c) then Stop(Validation(!captured, g))
    else if g[r][c] == Piece.Empty then
      if r == toRow && c == toCol then Stop(Validation(true, g))
      else Next(g, r, c, captured)
    else if Opposes(king, g[r][c]) then
      if !IsValidPosition(r + sr, c + sc) then Stop(Validation(!captured, g))
      else if g[r + sr][c + sc] == Piece.Empty then Next(SetCell(g, r, c, Piece.Empty), r, c, true)
      else Stop(Validation(!captured, g))
    else Stop(Validation(!captured, g))
  }

  /** The whole king walk: `KingStep` repeated until it stops. */
  function KingWalk(g: Board, king: Piece, row: int, col: int, sr: int, sc: int,
                    toRow: int, toCol: int, captured: bool): Validation
    requires IsValidPosition(row, col)
    requires (sr == 1 || sr == -1) && (sc == 1 || sc == -1)
    decreases if sr > 0 then Size - row else row + 1
  {
    match KingStep(g, king, row, col, sr, sc, toRow, toCol, captured)
    case Stop(v) => v
    case Next(g', r, c, cap) => KingWalk(g', king, r, c, sr, sc, toRow, toCol, cap)
  }

  /** A step that stops gives the walk's verdict. */
  lemma KingWalkStops(g: Board, king: Piece, row: int, col: int, sr: int, sc: int,
                      toRow: int, toCol: int, captured: bool, v: Validation)
    requires IsValidPosition(row, col)
    requires (sr == 1 || sr == -1) && (sc == 1 || sc == -1)
    requires KingStep(g, king, row, col, sr, sc, toRow, toCol, captured) == Stop(v)
    ensures KingWalk(g, king, row, col, sr, sc, toRow, toCol, captured) == v
  {
  }

  /** A step that goes on hands over to the walk from the next cell. */
  lemma KingWalkAdvances(g: Board, king: Piece, row: int, col: int, sr: int, sc: int,
                         toRow: int, toCol: int, captured: bool, g': Board, r: int, c: int, captured': bool)
    requires IsValidPosition(row, col)
    requires (sr == 1 || sr == -1) && (sc == 1 || sc == -1)
    requires KingStep(g, king, row, col, sr, sc, toRow, toCol, captured) == Next(g', r, c, captured')
    ensures r == row + sr && c == col + sc && IsValidPosition(r, c)
    ensures KingWalk(g, king, row, col, sr, sc, toRow, toCol, captured) ==
            KingWalk(g', king, r, c, sr, sc, toRow, toCol, captured')
  {
  }

  /** `IsValidMove(fr, fc, tr, tc)` with `current` to move. */
  function MoveValidation(g: Board, current: Player, fr: int, fc: int, tr: int, tc: int): Validation
    requires IsValidPosition(fr, fc)
  {
    var piece := g[fr][fc];
    if !IsValidPosition(tr, tc) then Validation(false, g)
    else if g[tr][tc] != Piece.Empty then Validation(false, g)
    else if (piece == Piece.White || piece == Piece.WhiteKing) && current != Player.White then Validation(false, g)
    else if (piece == Piece.Black || piece == Piece.BlackKing) && current != Player.Black then Validation(false, g)
    else if Abs(tr - fr) != Abs(tc - fc) then Validation(false, g)
    else if IsMan(piece) then Validation(ManMoveAccepted(g, current, fr, fc, tr, tc), g)
    else if IsKing(piece) then KingWalk(g, piece, fr, fc, Step(tr - fr), Step(tc - fc), tr, tc, false)
    else Validation(false, g)
  }

  /** The cheap rejections of `IsValidMove`: destination off the board or
      occupied, source empty or owned by the side not on move, or a move that is
      not diagonal. None of them touches the board. */
  lemma RejectedMoves(g: Board, current: Player, fr: int, fc: int, tr: int, tc: int)
    requires IsValidPosition(fr, fc)
    requires !IsValidPosition(tr, tc) || g[tr][tc] != Piece.Empty ||
             g[fr][fc] == Piece.Empty || GetPlayer(g[fr][fc]) != current ||
             Abs(tr - fr) != Abs(tc - fc)
    ensures MoveValidation(g, current, fr, fc, tr, tc) == Validation(false, g)
  {
  }

  /** A man's move never changes the board. With a capture option for the side
      on move it is accepted exactly when it jumps an opposing man or king
      2x2 onto an empty cell (in any direction); otherwise exactly when it
      steps one row forward and one column sideways onto an empty cell. */
  lemma ManMoveRule(g: Board, current: Player, fr: int, fc: int, tr: int, tc: int)
    requires IsValidPosition(fr, fc)
    requires IsMan(g[fr][fc]) && GetPlayer(g[fr][fc]) == current
    ensures MoveValidation(g, current, fr, fc, tr, tc).board == g
    ensures MoveValidation(g, current, fr, fc, tr, tc).accepted <==>
      IsValidPosition(tr, tc) && g[tr][tc] == Piece.Empty &&
      if CaptureOption(g, current) then
        Abs(tr - fr) == 2 && Abs(tc - fc) == 2 &&
        Owns(Toggle(current), g[(fr + tr) / 2][(fc + tc) / 2])
      else
        tr - fr == ForwardStep(g[fr][fc]) && Abs(tc - fc) == 1
  {
  }

  /** Mandatory capture for men: while the side on move has a capture option,
      every single-step move of its men is rejected. */
  lemma MandatoryCapture(g: Board, current: Player, fr: int, fc: int, tr: int, tc: int)
    requires IsValidPosition(fr, fc)
    requires IsMan(g[fr][fc]) && GetPlayer(g[fr][fc]) == current
    requires CaptureOption(g, current)
    requires Abs(tr - fr) == 1
    ensures !MoveValidation(g, current, fr, fc, tr, tc).accepted
  {
    ManMoveRule(g, current, fr, fc, tr, tc);
  }

  /** A king's move is the king walk toward the destination; the capture
      option of the side on move plays no part. */
  lemma KingMoveIsWalk(g: Board, current: Player, fr: int, fc: int, tr: int, tc: int)
    requires IsValidPosition(fr, fc) && IsValidPosition(tr, tc)
    requires IsKing(g[fr][fc]) && GetPlayer(g[fr][fc]) == current
    requires g[tr][tc] == Piece.Empty && Abs(tr - fr) == Abs(tc - fc)
    ensures tr != fr
    ensures MoveValidation(g, current, fr, fc, tr, tc) ==
      KingWalk(g, g[fr][fc], fr, fc, Step(tr - fr), Step(tc - fc), tr, tc, false)
  {
  }

  /** The walk only ever empties cells that held an opposing piece. */
  lemma {:induction false} KingWalkEmptiesOnlyOpponents(g: Board, king: Piece, row: int, col: int,
                                                        sr: int, sc: int, toRow: int, toCol: int, captured: bool)
    requires IsValidPosition(row, col)
    requires (sr == 1 || sr == -1) && (sc == 1 || sc == -1)
    ensures var v := KingWalk(g, king, row, col, sr, sc, toRow, toCol, captured);
      forall r, c | IsValidPosition(r, c) && v.board[r][c] != g[r][c] ::
        v.board[r][c] == Piece.Empty && Opposes(king, g[r][c])
    decreases if sr > 0 then Size - row else row + 1
  {
    var s := KingStep(g, king, row, col, sr, sc, toRow, toCol, captured);
    if s.Next? {
      KingWalkEmptiesOnlyOpponents(s.after, king, s.row, s.col, sr, sc, toRow, toCol, s.captured);
    }
  }

  /** A walk that captured nothing before stopping accepts: a rejected king
      move has always emptied at least one opposing cell. */
  lemma {:induction false} KingWalkRejectsOnlyAfterCapture(g: Board, king: Piece, row: int, col: int,
                                                           sr: int, sc: int, toRow: int, toCol: int)
    requires IsValidPosition(row, col)
    requires (sr == 1 || sr == -1) && (sc == 1 || sc == -1)
    ensures var v := KingWalk(g, king, row, col, sr, sc, toRow, toCol, false);
      !v.accepted ==> v.board != g
    decreases if sr > 0 then Size - row else row + 1
  {
    var s := KingStep(g, king, row, col, sr, sc, toRow, toCol, false);
    if s.Next? {
      if s.captured {
        var v := KingWalk(s.after, king, s.row, s.col, sr, sc, toRow, toCol, true);
        KingWalkEmptiesOnlyOpponents(s.after, king, s.row, s.col, sr, sc, toRow, toCol, true);
        assert v.board[s.row][s.col] == Piece.Empty != g[s.row][s.col];
      } else {
        KingWalkRejectsOnlyAfterCapture(g, king, s.row, s.col, sr, sc, toRow, toCol);
      }
    }
  }

  /** The walk from (row, col) in direction (sr, sc) passes n cells that are
      on the board, empty and not the destination. */
  predicate Glides(g: Board, row: int, col: int, sr: int, sc: int, n: nat, toRow: int, toCol: int)
    decreases n
  {
    n == 0 ||
    (IsValidPosition(row + sr, col + sc) && g[row + sr][col + sc] == Piece.Empty &&
     (row + sr != toRow || col + sc != toCol) &&
     Glides(g, row + sr, col + sc, sr, sc, n - 1, toRow, toCol))
  }

  /** A king gliding over empty cells only to an empty destination is
      accepted and changes nothing. */
  lemma {:induction false} KingGlide(g: Board, king: Piece, row: int, col: int, sr: int, sc: int,
                                     n: nat, toRow: int, toCol: int, captured: bool)
    requires IsValidPosition(row, col)
    requires (sr == 1 || sr == -1) && (sc == 1 || sc == -1)
    requires Glides(g, row, col, sr, sc, n, toRow, toCol)
    requires toRow == Ray(row, sr, n + 1) && toCol == Ray(col, sc, n + 1)
    requires IsValidPosition(toRow, toCol) && g[toRow][toCol] == Piece.Empty
    ensures KingWalk(g, king, row, col, sr, sc, toRow, toCol, captured) == Validation(true, g)
    decreases n
  {
    if n == 0 {
      assert KingStep(g, king, row, col, sr, sc, toRow, toCol, captured) == Stop(Validation(true, g));
    } else {
      var r, c := row + sr, col + sc;
      assert KingStep(g, king, row, col, sr, sc, toRow, toCol, captured) == Next(g, r, c, captured);
      assert Ray(r, sr, n) == toRow && Ray(c, sc, n) == toCol;
      KingGlide(g, king, r, c, sr, sc, n - 1, toRow, toCol, captured);
    }
  }

  /** A king walk that glides over empty cells and is then stopped by its own
      piece before reaching the destination is accepted and changes nothing. */
  lemma {:induction false} KingBlockedByOwnPiece(g: Board, king: Piece, row: int, col: int, sr: int, sc: int,
                                                 n: nat, toRow: int, toCol: int)
    requires IsValidPosition(row, col) && IsKing(king)
    requires (sr == 1 || sr == -1) && (sc == 1 || sc == -1)
    requires Glides(g, row, col, sr, sc, n, toRow, toCol)
    requires IsValidPosition(Ray(row, sr, n + 1), Ray(col, sc, n + 1))
    requires Owns(GetPlayer(king), g[Ray(row, sr, n + 1)][Ray(col, sc, n + 1)])
    ensures KingWalk(g, king, row, col, sr, sc, toRow, toCol, false) == Validation(true, g)
    decreases n
  {
    if n == 0 {
      assert KingStep(g, king, row, col, sr, sc, toRow, toCol, false) == Stop(Validation(true, g));
    } else {
      var r, c := row + sr, col + sc;
      assert KingStep(g, king, row, col, sr, sc, toRow, toCol, false) == Next(g, r, c, false);
      assert Ray(r, sr, n) == Ray(row, sr, n + 1) && Ray(c, sc, n) == Ray(col, sc, n + 1);
      KingBlockedByOwnPiece(g, king, r, c, sr, sc, n - 1, toRow, toCol);
    }
  }

  /** A king walk that has already captured, then glides over empty cells and
      is blocked before the destination, is rejected; the captures it made
      stay on the board. */
  lemma {:induction false} KingBlockedAfterCapture(g: Board, king: Piece, row: int, col: int, sr: int, sc: int,
                                                   n: nat, toRow: int, toCol: int)
    requires IsValidPosition(row, col)
    requires (sr == 1 || sr == -1) && (sc == 1 || sc == -1)
    requires Glides(g, row, col, sr, sc, n, toRow, toCol)
    requires Blocks(g, king, Ray(row, sr, n + 1), Ray(col, sc, n + 1), sr, sc)
    ensures KingWalk(g, king, row, col, sr, sc, toRow, toCol, true) == Validation(false, g)
    decreases n
  {
    if n == 0 {
      assert KingStep(g, king, row, col, sr, sc, toRow, toCol, true) == Stop(Validation(false, g));
    } else {
      var r, c := row + sr, col + sc;
      assert KingStep(g, king, row, col, sr, sc, toRow, toCol, true) == Next(g, r, c, true);
      assert Ray(r, sr, n) == Ray(row, sr, n + 1) && Ray(c, sc, n) == Ray(col, sc, n + 1);
      KingBlockedAfterCapture(g, king, r, c, sr, sc, n - 1, toRow, toCol);
    }
  }

  /** A White king on (7,0) moving to (3,4) jumps a Black man on (6,1), passes
      (5,2) and is stopped by its own man on (4,3): `IsValidMove` answers
      false, yet (6,1) has been emptied. */
  lemma KingCaptureThenBlocked(g: Board)
    requires g[7][0] == Piece.WhiteKing && g[6][1] == Piece.Black && g[5][2] == Piece.Empty
    requires g[4][3] == Piece.White && g[3][4] == Piece.Empty
    ensures MoveValidation(g, Player.White, 7, 0, 3, 4) == Validation(false, SetCell(g, 6, 1, Piece.Empty))
  {
    var g' := SetCell(g, 6, 1, Piece.Empty);
    KingMoveIsWalk(g, Player.White, 7, 0, 3, 4);
    assert Takes(g, Piece.WhiteKing, 6, 1, -1, 1);
    KingWalkAdvances(g, Piece.WhiteKing, 7, 0, -1, 1, 3, 4, false, g', 6, 1, true);
    assert Glides(g', 6, 1, -1, 1, 0, 3, 4);
    assert Glides(g', 6, 1, -1, 1, 1, 3, 4);
    KingBlockedAfterCapture(g', Piece.WhiteKing, 6, 1, -1, 1, 1, 3, 4);
  }

  // ---------------------------------------------------------------------------
  // Move application (MovePiece)

  /** The board after `MovePiece` and the player to move next. */
  datatype Outcome = Outcome(board: Board, player: Player)

  /** What `MovePiece(fr, fc, tr, tc)` does with `current` to move. Nothing is
      validated. The three stages below follow the source's order. */
  function MoveOutcome(g: Board, current: Player, fr: int, fc: int, tr: int, tc: int): Outcome
    requires IsValidPosition(fr, fc) && IsValidPosition(tr, tc)
  {
    var piece := g[fr][fc];
    var j := JumpStage(g, current, fr, fc, tr, tc);
    KingRowStage(Outcome(CrownStage(j.board, piece, tr, tc), j.player), piece, fr, fc, tr, tc)
  }

  /** Relocation, removal of the midpoint of a 2x2 move, and the turn: kept
      when that 2x2 move leaves `IsValidCaptureMove` true, handed over otherwise. */
  function JumpStage(g: Board, current: Player, fr: int, fc: int, tr: int, tc: int): Outcome
    requires IsValidPosition(fr, fc) && IsValidPosition(tr, tc)
  {
    var piece := g[fr][fc];
    var moved := SetCell(SetCell(g, fr, fc, Piece.Empty), tr, tc, piece);
    var capturing := Abs(tr - fr) == 2 && Abs(tc - fc) == 2;
    var jumped :=
      if capturing then SetCell(moved, fr + HalfTowardZero(tr - fr), fc + HalfTowardZero(tc - fc), Piece.Empty)
      else moved;
    Outcome(jumped, if capturing && IsValidCaptureMove(jumped, tr, tc, current) then current else Toggle(current))
  }

  /** Crowning: a White man landing on row 0 or a Black man landing on row 7
      is replaced, on the destination (tr, tc), by its king. */
  function CrownStage(b: Board, piece: Piece, tr: int, tc: int): Board
    requires IsValidPosition(tr, tc)
  {
    var whiteCrowned := if piece == Piece.White && tr == 0 then SetCell(b, tr, tc, Piece.WhiteKing) else b;
    if piece == Piece.Black && tr == Size - 1 then SetCell(whiteCrowned, tr, tc, Piece.BlackKing) else whiteCrowned
  }

  /** A king moving two rows empties the cell halfway (column offset halved
      toward zero) and hands the turn over again when `IsValidCaptureInRow`
      holds for the side now to move. */
  function KingRowStage(o: Outcome, piece: Piece, fr: int, fc: int, tr: int, tc: int): Outcome
    requires IsValidPosition(fr, fc) && IsValidPosition(tr, tc)
  {
    if IsKing(piece) && Abs(tr - fr) == 2 then
      var mr, mc := fr + HalfTowardZero(tr - fr), fc + HalfTowardZero(tc - fc);
      var cleared := SetCell(o.board, mr, mc, Piece.Empty);
      Outcome(cleared, if IsValidCaptureInRow(cleared, tr, tc, mr, mc, o.player) then Toggle(o.player) else o.player)
    else
      o
  }

  /** The piece that ends up on the destination: a White man reaching row 0
      or a Black man reaching row 7 is crowned. */
  function Promoted(piece: Piece, row: int): (p: Piece)
    ensures GetPlayer(p) == GetPlayer(piece)
  {
    if piece == Piece.White && row == 0 then Piece.WhiteKing
    else if piece == Piece.Black && row == Size - 1 then Piece.BlackKing
    else piece
  }

  /** The cell `MovePiece` clears as captured: the midpoint of a 2x2 move,
      and for a king any move of two rows (column offset halved toward zero). */
  predicate JumpedCell(piece: Piece, fr: int, fc: int, tr: int, tc: int, r: int, c: int)
  {
    ((Abs(tr - fr) == 2 && Abs(tc - fc) == 2) || (IsKing(piece) && Abs(tr - fr) == 2)) &&
    r == fr + HalfTowardZero(tr - fr) && c == fc + HalfTowardZero(tc - fc)
  }

  /** Cell by cell: the destination gets the (possibly crowned) piece, the
      source and the jumped cell become Empty, and every other cell keeps its
      piece. */
  lemma MoveCells(g: Board, current: Player, fr: int, fc: int, tr: int, tc: int)
    requires IsValidPosition(fr, fc) && IsValidPosition(tr, tc)
    ensures forall r, c | IsValidPosition(r, c) ::
      MoveOutcome(g, current, fr, fc, tr, tc).board[r][c] ==
        if r == tr && c == tc then Promoted(g[fr][fc], tr)
        else if (r == fr && c == fc) || JumpedCell(g[fr][fc], fr, fc, tr, tc, r, c) then Piece.Empty
        else g[r][c]
  {
    var piece := g[fr][fc];
    var j := JumpStage(g, current, fr, fc, tr, tc);
    var crowned := CrownStage(j.board, piece, tr, tc);
    JumpStageCells(g, current, fr, fc, tr, tc);
    CrownStageCells(j.board, piece, tr, tc);
    KingRowStageCells(Outcome(crowned, j.player), piece, fr, fc, tr, tc);
  }

  /** Cells after the first stage of `MovePiece`. */
  lemma JumpStageCells(g: Board, current: Player, fr: int, fc: int, tr: int, tc: int)
    requires IsValidPosition(fr, fc) && IsValidPosition(tr, tc)
    ensures forall r, c | IsValidPosition(r, c) ::
      JumpStage(g, current, fr, fc, tr, tc).board[r][c] ==
        if r == tr && c == tc then g[fr][fc]
        else if (r == fr && c == fc) ||
                (Abs(tr - fr) == 2 && Abs(tc - fc) == 2 &&
                 r == fr + HalfTowardZero(tr - fr) && c == fc + HalfTowardZero(tc - fc)) then Piece.Empty
        else g[r][c]
  {
  }

  /** Cells after the crowning stage: only the destination can change. */
  lemma CrownStageCells(b: Board, piece: Piece, tr: int, tc: int)
    requires IsValidPosition(tr, tc) && b[tr][tc] == piece
    ensures forall r, c | IsValidPosition(r, c) ::
      CrownStage(b, piece, tr, tc)[r][c] == if r == tr && c == tc then Promoted(piece, tr) else b[r][c]
  {
  }

  /** Cells after the king stage: only the halfway cell can change. */
  lemma KingRowStageCells(o: Outcome, piece: Piece, fr: int, fc: int, tr: int, tc: int)
    requires IsValidPosition(fr, fc) && IsValidPosition(tr, tc)
    ensures forall r, c | IsValidPosition(r, c) ::
      KingRowStage(o, piece, fr, fc, tr, tc).board[r][c] ==
        if IsKing(piece) && Abs(tr - fr) == 2 && r == fr + HalfTowardZero(tr - fr) && c == fc + HalfTowardZero(tc - fc)
        then Piece.Empty else o.board[r][c]
  {
  }

  /** A diagonal move that is not a two-row jump keeps every side's piece count. */
  lemma QuietMoveKeepsCounts(g: Board, current: Player, fr: int, fc: int, tr: int, tc: int, p: Player)
    requires IsValidPosition(fr, fc) && IsValidPosition(tr, tc)
    requires (fr, fc) != (tr, tc) && g[tr][tc] == Piece.Empty
    requires Abs(tr - fr) == Abs(tc - fc) != 2
    ensures CountOwned(MoveOutcome(g, current, fr, fc, tr, tc).board, p) == CountOwned(g, p)
  {
    var piece := g[fr][fc];
    var h1 := SetCell(g, fr, fc, Piece.Empty);
    var h2 := SetCell(h1, tr, tc, Promoted(piece, tr));
    MoveCells(g, current, fr, fc, tr, tc);
    BoardsEqual(MoveOutcome(g, current, fr, fc, tr, tc).board, h2);
    CountSetCell(g, fr, fc, Piece.Empty, Owned(p));
    CountSetCell(h1, tr, tc, Promoted(piece, tr), Owned(p));
  }

  /** The board after a 2x2 move: three cells rewritten. */
  lemma JumpBoard(g: Board, current: Player, fr: int, fc: int, tr: int, tc: int)
    requires IsValidPosition(fr, fc) && IsValidPosition(tr, tc)
    requires Abs(tr - fr) == 2 && Abs(tc - fc) == 2
    ensures MoveOutcome(g, current, fr, fc, tr, tc).board ==
      SetCell(SetCell(SetCell(g, fr, fc, Piece.Empty), (fr + tr) / 2, (fc + tc) / 2, Piece.Empty),
              tr, tc, Promoted(g[fr][fc], tr))
  {
    MoveCells(g, current, fr, fc, tr, tc);
    BoardsEqual(MoveOutcome(g, current, fr, fc, tr, tc).board,
      SetCell(SetCell(SetCell(g, fr, fc, Piece.Empty), (fr + tr) / 2, (fc + tc) / 2, Piece.Empty),
              tr, tc, Promoted(g[fr][fc], tr)));
  }

  /** Count of one side after a 2x2 move, from the three rewritten cells. */
  lemma JumpCount(g: Board, current: Player, fr: int, fc: int, tr: int, tc: int, p: Player)
    requires IsValidPosition(fr, fc) && IsValidPosition(tr, tc)
    requires Abs(tr - fr) == 2 && Abs(tc - fc) == 2 && g[tr][tc] == Piece.Empty
    ensures CountOwned(MoveOutcome(g, current, fr, fc, tr, tc).board, p) ==
      CountOwned(g, p) - (if Owns(p, g[fr][fc]) then 1 else 0)
        - (if Owns(p, g[(fr + tr) / 2][(fc + tc) / 2]) then 1 else 0)
        + (if Owns(p, g[fr][fc]) then 1 else 0)
  {
    var piece := g[fr][fc];
    var mr, mc := (fr + tr) / 2, (fc + tc) / 2;
    var h1 := SetCell(g, fr, fc, Piece.Empty);
    var h2 := SetCell(h1, mr, mc, Piece.Empty);
    JumpBoard(g, current, fr, fc, tr, tc);
    CountSetCell(g, fr, fc, Piece.Empty, Owned(p));
    CountSetCell(h1, mr, mc, Piece.Empty, Owned(p));
    CountSetCell(h2, tr, tc, Promoted(piece, tr), Owned(p));
  }

  /** A 2x2 jump of a piece over an opposing piece onto an empty cell removes
      exactly one opposing piece and keeps the mover's count. */
  lemma JumpRemovesOnePiece(g: Board, current: Player, fr: int, fc: int, tr: int, tc: int)
    requires IsValidPosition(fr, fc) && IsValidPosition(tr, tc)
    requires Abs(tr - fr) == 2 && Abs(tc - fc) == 2 && g[tr][tc] == Piece.Empty
    requires g[fr][fc] != Piece.Empty
    requires Owns(Toggle(GetPlayer(g[fr][fc])), g[(fr + tr) / 2][(fc + tc) / 2])
    ensures var after := MoveOutcome(g, current, fr, fc, tr, tc).board;
      var mover := GetPlayer(g[fr][fc]);
      CountOwned(after, mover) == CountOwned(g, mover) &&
      CountOwned(after, Toggle(mover)) == CountOwned(g, Toggle(mover)) - 1
  {
    var mover := GetPlayer(g[fr][fc]);
    JumpCount(g, current, fr, fc, tr, tc, mover);
    JumpCount(g, current, fr, fc, tr, tc, Toggle(mover));
  }

  /** A diagonal move that is not a two-row jump always hands the turn over. */
  lemma QuietMoveSwitchesTurn(g: Board, current: Player, fr: int, fc: int, tr: int, tc: int)
    requires IsValidPosition(fr, fc) && IsValidPosition(tr, tc)
    requires Abs(tr - fr) == Abs(tc - fc) != 2
    ensures MoveOutcome(g, current, fr, fc, tr, tc).player == Toggle(current)
  {
  }

  /** After a man's 2x2 move the side keeps the turn exactly when the landed
      piece has an opposing piece next to it with an empty on-board cell
      beyond. */
  lemma ManJumpTurn(g: Board, current: Player, fr: int, fc: int, tr: int, tc: int)
    requires IsValidPosition(fr, fc) && IsValidPosition(tr, tc)
    requires IsMan(g[fr][fc]) && current != Player.Empty
    requires Abs(tr - fr) == 2 && Abs(tc - fc) == 2
    ensures var o := MoveOutcome(g, current, fr, fc, tr, tc);
      o.player == current <==> JumpAvailable(o.board, tr, tc)
  {
    var piece := g[fr][fc];
    var moved := SetCell(SetCell(g, fr, fc, Piece.Empty), tr, tc, piece);
    var jumped := SetCell(moved, fr + HalfTowardZero(tr - fr), fc + HalfTowardZero(tc - fc), Piece.Empty);
    var j := JumpStage(g, current, fr, fc, tr, tc);
    assert j == Outcome(jumped, if IsValidCaptureMove(jumped, tr, tc, current) then current else Toggle(current));
    var o := MoveOutcome(g, current, fr, fc, tr, tc);
    assert o == Outcome(CrownStage(jumped, piece, tr, tc), j.player);
    assert jumped[tr][tc] == piece;
    assert o.player == current <==> JumpAvailable(jumped, tr, tc);
    if piece == Piece.White && tr == 0 {
      assert o.board == SetCell(jumped, tr, tc, Piece.WhiteKing);
      CrowningKeepsJumps(jumped, tr, tc, Piece.WhiteKing);
    } else if piece == Piece.Black && tr == Size - 1 {
      assert o.board == SetCell(jumped, tr, tc, Piece.BlackKing);
      CrowningKeepsJumps(jumped, tr, tc, Piece.BlackKing);
    } else {
      assert o.board == jumped;
    }
  }

  /** Replacing the piece at (row, col) by another of the same side does not
      change which jumps it has. */
  lemma CrowningKeepsJumps(g: Board, row: int, col: int, p: Piece)
    requires IsValidPosition(row, col) && GetPlayer(p) == GetPlayer(g[row][col])
    ensures JumpAvailable(SetCell(g, row, col, p), row, col) == JumpAvailable(g, row, col)
  {
    var h := SetCell(g, row, col, p);
    forall dr, dc | (dr == 1 || dr == -1) && (dc == 1 || dc == -1)
      ensures JumpToward(h, row, col, dr, dc) == JumpToward(g, row, col, dr, dc)
    {
    }
  }

  /** After a king's 2x2 move the turn is first handed over and then handed
      back exactly when `IsValidCaptureInRow` holds for the new side. */
  lemma KingJumpTurn(g: Board, current: Player, fr: int, fc: int, tr: int, tc: int)
    requires IsValidPosition(fr, fc) && IsValidPosition(tr, tc)
    requires IsKing(g[fr][fc]) && current != Player.Empty
    requires Abs(tr - fr) == 2 && Abs(tc - fc) == 2
    ensures var o := MoveOutcome(g, current, fr, fc, tr, tc);
      o.player ==
        if IsValidCaptureInRow(o.board, tr, tc, (fr + tr) / 2, (fc + tc) / 2, Toggle(current))
        then current else Toggle(current)
  {
    var piece := g[fr][fc];
    var moved := SetCell(SetCell(g, fr, fc, Piece.Empty), tr, tc, piece);
    var mr, mc := fr + HalfTowardZero(tr - fr), fc + HalfTowardZero(tc - fc);
    var jumped := SetCell(moved, mr, mc, Piece.Empty);
    assert jumped[tr][tc] == piece;
    assert !IsValidCaptureMove(jumped, tr, tc, current);
    var j := JumpStage(g, current, fr, fc, tr, tc);
    assert j == Outcome(jumped, Toggle(current));
    assert CrownStage(jumped, piece, tr, tc) == jumped;
    assert MoveOutcome(g, current, fr, fc, tr, tc) == KingRowStage(j, piece, fr, fc, tr, tc);
    KingRowTurn(j, piece, fr, fc, tr, tc);
    ToggleTwice(current);
  }

  /** After a king's 2x2 move the row `IsValidCaptureInRow` checks is the
      king's starting row, and the vacated starting square is one of the two
      neighbours it looks at. So the mover keeps the turn whenever the cell
      behind the starting square, on the line of the jump, is on the board and
      Empty. */
  lemma KingJumpKeepsTurn(g: Board, current: Player, fr: int, fc: int, tr: int, tc: int)
    requires IsValidPosition(fr, fc) && IsValidPosition(tr, tc)
    requires IsKing(g[fr][fc]) && current != Player.Empty
    requires Abs(tr - fr) == 2 && Abs(tc - fc) == 2
    requires IsValidPosition(fr + (fr - tr) / 2, fc + (fc - tc) / 2)
    requires g[fr + (fr - tr) / 2][fc + (fc - tc) / 2] == Piece.Empty
    ensures MoveOutcome(g, current, fr, fc, tr, tc).player == current
  {
    var b := SetCell(SetCell(SetCell(g, fr, fc, Piece.Empty), (fr + tr) / 2, (fc + tc) / 2, Piece.Empty),
                     tr, tc, Promoted(g[fr][fc], tr));
    JumpBoard(g, current, fr, fc, tr, tc);
    assert MoveOutcome(g, current, fr, fc, tr, tc).board == b;
    JumpLeavesOpening(g, fr, fc, tr, tc, Promoted(g[fr][fc], tr), Toggle(current));
    assert (if tr < (fr + tr) / 2 then 1 else -1) == (fr - tr) / 2;
    assert (fc - tc) / 2 == -1 || (fc - tc) / 2 == 1;
    assert IsValidCaptureInRow(b, tr, tc, (fr + tr) / 2, (fc + tc) / 2, Toggle(current));
    KingJumpTurn(g, current, fr, fc, tr, tc);
  }

  /** On the board after a 2x2 move the starting square is Empty and the
      cell behind it, on the line of the move, is untouched: together they
      form an opening for `IsValidCaptureInRow` around the midpoint. */
  lemma JumpLeavesOpening(g: Board, fr: int, fc: int, tr: int, tc: int, landed: Piece, p: Player)
    requires IsValidPosition(fr, fc) && IsValidPosition(tr, tc)
    requires Abs(tr - fr) == 2 && Abs(tc - fc) == 2 && p != Player.Empty
    requires IsValidPosition(fr + (fr - tr) / 2, fc + (fc - tc) / 2)
    requires g[fr + (fr - tr) / 2][fc + (fc - tc) / 2] == Piece.Empty
    ensures var b := SetCell(SetCell(SetCell(g, fr, fc, Piece.Empty), (fr + tr) / 2, (fc + tc) / 2, Piece.Empty),
                             tr, tc, landed);
      RowOpening(b, (fr + tr) / 2, (fc + tc) / 2, (fr - tr) / 2, (fc - tc) / 2, p)
  {
    var mr, mc := (fr + tr) / 2, (fc + tc) / 2;
    var d, s := (fr - tr) / 2, (fc - tc) / 2;
    assert mr + d == fr && mc + s == fc && mr + 2 * d == fr + d && mc + 2 * s == fc + s;
  }

  /** The last stage of `MovePiece` when it applies: the halfway cell is
      emptied and the turn passes when `IsValidCaptureInRow` holds. */
  lemma KingRowStageApplies(o: Outcome, piece: Piece, fr: int, fc: int, tr: int, tc: int)
    requires IsValidPosition(fr, fc) && IsValidPosition(tr, tc)
    requires IsKing(piece) && Abs(tr - fr) == 2
    ensures var mr, mc := fr + HalfTowardZero(tr - fr), fc + HalfTowardZero(tc - fc);
      var cleared := SetCell(o.board, mr, mc, Piece.Empty);
      KingRowStage(o, piece, fr, fc, tr, tc) ==
        Outcome(cleared, if IsValidCaptureInRow(cleared, tr, tc, mr, mc, o.player) then Toggle(o.player) else o.player)
  {
  }

  /** The last stage of `MovePiece` for a king moving 2x2: the turn is handed
      over exactly when `IsValidCaptureInRow` holds on the cleared board. */
  lemma KingRowTurn(o: Outcome, piece: Piece, fr: int, fc: int, tr: int, tc: int)
    requires IsValidPosition(fr, fc) && IsValidPosition(tr, tc)
    requires IsKing(piece) && Abs(tr - fr) == 2 && Abs(tc - fc) == 2
    ensures var k := KingRowStage(o, piece, fr, fc, tr, tc);
      k.board == SetCell(o.board, (fr + tr) / 2, (fc + tc) / 2, Piece.Empty) &&
      k.player == if IsValidCaptureInRow(k.board, tr, tc, (fr + tr) / 2, (fc + tc) / 2, o.player)
                  then Toggle(o.player) else o.player
  {
    HalfwayIsMidpoint(fr, tr);
    HalfwayIsMidpoint(fc, tc);
  }

  /** A White man or a Black man reaching the far row is crowned. */
  lemma Promotion(g: Board, current: Player, fr: int, fc: int, tr: int, tc: int)
    requires IsValidPosition(fr, fc) && IsValidPosition(tr, tc)
    ensures var after := MoveOutcome(g, current, fr, fc, tr, tc).board;
      (g[fr][fc] == Piece.White && tr == 0 ==> after[tr][tc] == Piece.WhiteKing) &&
      (g[fr][fc] == Piece.Black && tr == Size - 1 ==> after[tr][tc] == Piece.BlackKing) &&
      (!(g[fr][fc] == Piece.White && tr == 0) && !(g[fr][fc] == Piece.Black && tr == Size - 1) ==>
        after[tr][tc] == g[fr][fc])
  {
    MoveCells(g, current, fr, fc, tr, tc);
  }

  /** From the starting layout White's man at (5,0) may step to (4,1); the
      move leaves (5,0) empty, puts the man on (4,1) and hands the turn to Black. */
  lemma OpeningMove()
    ensures MoveValidation(InitialBoard(), Player.White, 5, 0, 4, 1) == Validation(true, InitialBoard())
    ensures var o := MoveOutcome(InitialBoard(), Player.White, 5, 0, 4, 1);
      o.player == Player.Black && o.board[4][1] == Piece.White && o.board[5][0] == Piece.Empty
  {
    InitialNoCaptureOption(Player.White);
  }

  /** `GetMoveDirections` lists for a man the opposite row sign of the forward
      step `IsValidMove` uses. */
  lemma MoveDirectionsOpposeForward(man: Piece)
    requires IsMan(man)
    ensures GetMoveDirections(man) == [-ForwardStep(man)]
  {
  }
}
