/**
  The shared hit accounting between a board and its ships: the hit count of
  every ship equals the number of HIT cells that refer to it. Placement and
  attacks keep this, so a ship's sunk flag agrees with the attack history
  recorded in the cells even though no cell is ever marked sunk.
 */
module HitAccounting {
  import opened Optional
  import opened ShipTypes
  import opened Ships
  import opened Cells
  import opened Boards

  /** The cell records a hit on the ship of index `id`. */
  predicate IsHitOf(c: Cell, id: nat)
  {
    c.state == CellState.Hit && c.ship == Some(id)
  }

  /** 1 when the cell records a hit on ship `id`, 0 otherwise. */
  function HitMark(c: Cell, id: nat): nat
  {
    if IsHitOf(c, id) then 1 else 0
  }

  /** Number of cells of a row recording a hit on ship `id`. */
  function HitsInRow(row: seq<Cell>, id: nat): nat
  {
    if |row| == 0 then 0 else HitMark(row[0], id) + HitsInRow(row[1..], id)
  }

  /** Number of cells of a grid recording a hit on ship `id`. */
  function HitsInGrid(rows: seq<seq<Cell>>, id: nat): nat
  {
    if |rows| == 0 then 0 else HitsInRow(rows[0], id) + HitsInGrid(rows[1..], id)
  }

  /** Every ship's hit count is the number of HIT cells referring to it. */
  ghost predicate Accounted(b: Board, ships: seq<Ship>)
  {
    forall id :: 0 <= id < |ships| ==> ships[id].hits == HitsInGrid(b.cells, id)
  }

  /** Replacing one cell of a row changes the row's count by the difference of the two cells' marks. */
  lemma {:induction false} RowUpdate(row: seq<Cell>, k: int, x: Cell, id: nat)
    requires 0 <= k < |row|
    ensures HitsInRow(row[k := x], id) == HitsInRow(row, id) - HitMark(row[k], id) + HitMark(x, id)
  {
    if k > 0 {
      RowUpdate(row[1..], k - 1, x, id);
      assert row[k := x][1..] == row[1..][k - 1 := x];
    } else {
      assert row[k := x][1..] == row[1..];
    }
  }

  /** Replacing one cell of a grid changes the grid's count by the difference of the two cells' marks. */
  lemma {:induction false} GridUpdate(rows: seq<seq<Cell>>, r: int, k: int, x: Cell, id: nat)
    requires 0 <= r < |rows| && 0 <= k < |rows[r]|
    ensures HitsInGrid(rows[r := rows[r][k := x]], id) ==
            HitsInGrid(rows, id) - HitMark(rows[r][k], id) + HitMark(x, id)
  {
    if r > 0 {
      GridUpdate(rows[1..], r - 1, k, x, id);
      assert rows[r := rows[r][k := x]][1..] == rows[1..][r - 1 := rows[r][k := x]];
    } else {
      RowUpdate(rows[0], k, x, id);
      assert rows[r := rows[r][k := x]][1..] == rows[1..];
    }
  }

  /** Two rows that agree on which cells record a hit on `id` have the same count. */
  lemma {:induction false} RowSameMarks(a: seq<Cell>, b: seq<Cell>, id: nat)
    requires |a| == |b|
    requires forall j :: 0 <= j < |a| ==> IsHitOf(a[j], id) == IsHitOf(b[j], id)
    ensures HitsInRow(a, id) == HitsInRow(b, id)
  {
    if |a| > 0 {
      RowSameMarks(a[1..], b[1..], id);
    }
  }

  /** Two grids of one shape that agree on which cells record a hit on `id` have the same count. */
  lemma {:induction false} GridSameMarks(a: seq<seq<Cell>>, b: seq<seq<Cell>>, id: nat)
    requires |a| == |b|
    requires forall i :: 0 <= i < |a| ==> |a[i]| == |b[i]|
    requires forall i, j :: 0 <= i < |a| && 0 <= j < |a[i]| ==> IsHitOf(a[i][j], id) == IsHitOf(b[i][j], id)
    ensures HitsInGrid(a, id) == HitsInGrid(b, id)
  {
    if |a| > 0 {
      RowSameMarks(a[0], b[0], id);
      GridSameMarks(a[1..], b[1..], id);
    }
  }

  /** A new board records no hits, so it is accounted with any fleet of fresh ships. */
  lemma {:induction false} NewBoardAccounted(ships: seq<Ship>)
    requires forall id :: 0 <= id < |ships| ==> ships[id].hits == 0
    ensures Accounted(NewBoard(), ships)
  {
    var empty := Board(seq(GridSize, r => seq(GridSize, c => Cell(CellState.Empty, None))));
    forall id | 0 <= id < |ships|
      ensures HitsInGrid(NewBoard().cells, id) == 0
    {
      GridSameMarks(NewBoard().cells, empty.cells, id);
      NoMarksNoHits(empty.cells, id);
    }
  }

  /** A grid none of whose cells records a hit on `id` counts zero. */
  lemma {:induction false} NoMarksNoHits(rows: seq<seq<Cell>>, id: nat)
    requires forall i, j :: 0 <= i < |rows| && 0 <= j < |rows[i]| ==> !IsHitOf(rows[i][j], id)
    ensures HitsInGrid(rows, id) == 0
  {
    if |rows| > 0 {
      var none := seq(|rows[0]|, j => Cell(CellState.Empty, None));
      RowSameMarks(rows[0], none, id);
      RowOfEmptiesNoHits(|rows[0]|, id);
      NoMarksNoHits(rows[1..], id);
    }
  }

  /** A row of new, empty cells records no hits. */
  lemma {:induction false} RowOfEmptiesNoHits(n: nat, id: nat)
    ensures HitsInRow(seq(n, j => Cell(CellState.Empty, None)), id) == 0
  {
    if n > 0 {
      var row := seq(n, j => Cell(CellState.Empty, None));
      RowOfEmptiesNoHits(n - 1, id);
      assert row[1..] == seq(n - 1, j => Cell(CellState.Empty, None));
    }
  }

  /** Placement only turns EMPTY cells into SHIP cells, so no ship's count moves. */
  lemma PlaceKeepsAccounted(b: Board, ships: seq<Ship>, id: nat, row: int, col: int, horizontal: bool)
    requires Shaped(b) && id < |ships|
    requires Accounted(b, ships)
    ensures Accounted(PlaceShip(b, ships, id, row, col, horizontal).board, ships)
  {
    var p := PlaceShip(b, ships, id, row, col, horizontal);
    forall k | 0 <= k < |ships|
      ensures ships[k].hits == HitsInGrid(p.board.cells, k)
    {
      forall i, j | 0 <= i < |b.cells| && 0 <= j < |b.cells[i]|
        ensures IsHitOf(b.cells[i][j], k) == IsHitOf(p.board.cells[i][j], k)
      {
        assert IsValid(i, j);
      }
      GridSameMarks(b.cells, p.board.cells, k);
    }
  }

  /** An attack adds a HIT cell for a ship exactly when it adds a hit to that ship. */
  lemma AttackKeepsAccounted(b: Board, ships: seq<Ship>, row: int, col: int)
    requires BoardWellFormed(b, |ships|)
    requires Accounted(b, ships)
    ensures CanAttack(b, |ships|, row, col)
    ensures var s := ReceiveAttack(b, ships, row, col);
            Accounted(s.board, s.ships)
  {
    var s := ReceiveAttack(b, ships, row, col);
    if IsValid(row, col) && !WasShot(b.cells[row][col]) {
      var before := b.cells[row][col];
      assert s.board.cells == b.cells[row := b.cells[row][col := s.board.cells[row][col]]];
      forall k | 0 <= k < |ships|
        ensures s.ships[k].hits == HitsInGrid(s.board.cells, k)
      {
        GridUpdate(b.cells, row, col, s.board.cells[row][col], k);
      }
    }
  }

  /**
    On an accounted board, a consistent ship is sunk exactly when the HIT cells
    referring to it number at least its size.
   */
  lemma SunkIffEnoughHitCells(b: Board, ships: seq<Ship>, id: nat)
    requires Accounted(b, ships) && id < |ships| && Consistent(ships[id])
    ensures IsSunk(ships[id]) <==> HitsInGrid(b.cells, id) >= GetSize(ships[id])
  {
  }
}
