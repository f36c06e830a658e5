/** The two enumerations of the game and the helpers attached to `Piece`.
    The enum order is significant in the source (a king's value is its man's
    value + 2), so `Piece` carries an explicit ordinal. */
module Pieces {

  /** Contents of one board cell, in declaration order Empty=0 .. BlackKing=4. */
  datatype Piece = Empty | White | Black | WhiteKing | BlackKing

  /** A side of the game; Empty is the no-owner / no-winner sentinel. */
  datatype Player = Empty | White | Black

  /** The integer value C# gives each `Piece` member. */
  function PieceValue(p: Piece): (v: nat)
    ensures v < 5
  {
    match p
    case Empty => 0
    case White => 1
    case Black => 2
    case WhiteKing => 3
    case BlackKing => 4
  }

  predicate IsMan(p: Piece) { p == Piece.White || p == Piece.Black }

  predicate IsKing(p: Piece) { p == Piece.WhiteKing || p == Piece.BlackKing }

  /** The crowned form of a man, i.e. the piece whose enum value is the man's value + 2. */
  function KingOf(man: Piece): (k: Piece)
    requires IsMan(man)
    ensures IsKing(k)
    ensures PieceValue(k) == PieceValue(man) + 2
    ensures GetPlayer(k) == GetPlayer(man)
  {
    if man == Piece.White then Piece.WhiteKing else Piece.BlackKing
  }

  /** Owner of a piece: men and kings map to their colour, Empty to Empty. */
  function GetPlayer(p: Piece): (r: Player)
    ensures (r == Player.Empty) <==> (p == Piece.Empty)
  {
    match p
    case White | WhiteKing => Player.White
    case Black | BlackKing => Player.Black
    case Empty => Player.Empty
  }

  /** Row directions a piece may move in, as listed by the source: one entry
      for a man, both for a king, none for an empty cell. */
  function GetMoveDirections(p: Piece): (r: seq<int>)
    ensures (r == []) <==> (p == Piece.Empty)
    ensures IsKing(p) <==> |r| == 2
    ensures forall i :: 0 <= i < |r| ==> r[i] == 1 || r[i] == -1
    ensures |r| == 2 ==> r[0] != r[1]
  {
    match p
    case White => [1]
    case Black => [-1]
    case WhiteKing | BlackKing => [1, -1]
    case Empty => []
  }

  /** The turn hand-over `currentPlayer == White ? Black : White`. */
  function Toggle(p: Player): (r: Player)
    ensures r != Player.Empty
    ensures p != Player.Empty ==> r != p
  {
    if p == Player.White then Player.Black else Player.White
  }

  /** Handing the turn over twice gives it back to a real player. */
  lemma ToggleTwice(p: Player)
    requires p != Player.Empty
    ensures Toggle(Toggle(p)) == p
  {
  }
}
