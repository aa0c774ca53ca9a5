/** The three-by-three game played at the end of the source's `board.py`:
    four moves in place, then the same fifth move once on a copy and once in
    place, after which the two boards are equal. */
module Scenario {
  import opened BoardState
  import opened Board

  method CopyMatchesInPlace() returns (same: bool)
    ensures same
  {
    var board := new Board(3, 3);
    board.MakeMove(1, 1);
    board.MakeMove(1, 0);
    board.MakeMove(0, 0);
    board.MakeMove(0, 1);
    var copy := board.MakeMoveCopy(2, 1);
    board.MakeMove(2, 1);
    same := board.Equals(copy);
  }
}
