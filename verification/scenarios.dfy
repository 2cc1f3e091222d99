/**
  Worked plays on a fresh board, derived from the contracts of placement and
  attack, and the placement-order discrepancy of the source on a concrete input.
 */
module Scenarios {
  import opened Optional
  import opened ShipTypes
  import opened Ships
  import opened Cells
  import opened Boards

  /**
    A Destroyer placed horizontally at (0,0): attacking (0,0) hits, attacking
    (0,1) sinks it, and attacking (0,0) again reports ALREADY_SHOT.
   */
  lemma DestroyerRoundTrip()
    ensures var ships := [NewShip(Destroyer)];
            var p := PlaceShip(NewBoard(), ships, 0, 0, 0, true);
            && p.placed
            && CanAttack(p.board, |ships|, 0, 0)
            && var s1 := ReceiveAttack(p.board, ships, 0, 0);
            && s1.result == ShotResult.Hit
            && CanAttack(s1.board, |s1.ships|, 0, 1)
            && var s2 := ReceiveAttack(s1.board, s1.ships, 0, 1);
            && s2.result == Sunk
            && IsSunk(s2.ships[0])
            && CanAttack(s2.board, |s2.ships|, 0, 0)
            && ReceiveAttack(s2.board, s2.ships, 0, 0).result == AlreadyShot
  {
    var ships := [NewShip(Destroyer)];
    var b := NewBoard();
    assert FreeFrom(b, 0, 0, 2, true, 0);
    var p := PlaceShip(b, ships, 0, 0, 0, true);
    assert InSpan(0, 0, true, 0, 2, 0, 0) && InSpan(0, 0, true, 0, 2, 0, 1);
    assert p.board.cells[0][0] == Cell(Occupied, Some(0));
    assert p.board.cells[0][1] == Cell(Occupied, Some(0));
    var s1 := ReceiveAttack(p.board, ships, 0, 0);
    assert s1.ships == [Ship(Destroyer, 1, false)];
    assert s1.board.cells[0][1] == Cell(Occupied, Some(0));
    var s2 := ReceiveAttack(s1.board, s1.ships, 0, 1);
    assert s2.ships == [Ship(Destroyer, 2, true)];
    assert s2.board.cells[0][0] == s1.board.cells[0][0];
  }

  /** A Cruiser placed vertically at (8,0) would reach row 10: the placement is refused and the board stays empty. */
  lemma CruiserOverrunRefused()
    ensures PlaceShip(NewBoard(), [NewShip(Cruiser)], 0, 8, 0, false) == Placement(NewBoard(), false)
  {
  }

  /**
    The same placement as the source writes it: the occupancy walk reaches
    row 10 before any bounds check and the array access throws.
   */
  lemma CruiserOverrunThrowsAsWritten()
    ensures PlaceShipAsWritten(NewBoard(), [NewShip(Cruiser)], 0, 8, 0, false) == ArrayIndexOutOfBounds
  {
    var b := NewBoard();
    assert WalkFree(b, 8, 0, 3, false, 2) == IndexOutOfRange;
    assert WalkFree(b, 8, 0, 3, false, 1) == IndexOutOfRange;
    assert WalkFree(b, 8, 0, 3, false, 0) == IndexOutOfRange;
  }

  /**
    A Cruiser placed vertically at (0,1) would share cell (0,1) with a
    Destroyer placed horizontally at (0,0): it is refused and the Destroyer's
    cells are untouched.
   */
  lemma OverlapRefused()
    ensures var ships := [NewShip(Destroyer), NewShip(Cruiser)];
            var first := PlaceShip(NewBoard(), ships, 0, 0, 0, true);
            && first.placed
            && PlaceShip(first.board, ships, 1, 0, 1, false) == Placement(first.board, false)
  {
    var ships := [NewShip(Destroyer), NewShip(Cruiser)];
    var b := NewBoard();
    assert FreeFrom(b, 0, 0, 2, true, 0);
    var first := PlaceShip(b, ships, 0, 0, 0, true);
    assert InSpan(0, 0, true, 0, 2, 0, 1);
    assert first.board.cells[0][1] == Cell(Occupied, Some(0));
    assert !IsEmpty(first.board.cells[SpanRow(0, 0, false)][SpanCol(1, 0, false)]);
  }

  /** Attacking water gives WATER; the cell never refers to a ship, and a repeat gives ALREADY_SHOT. */
  lemma WaterThenAlreadyShot(row: int, col: int)
    requires IsValid(row, col)
    ensures var s1 := ReceiveAttack(NewBoard(), [], row, col);
            && s1.result == Water
            && s1.board.cells[row][col] == Cell(Miss, None)
            && ReceiveAttack(s1.board, s1.ships, row, col).result == AlreadyShot
  {
  }
}
