/**
  The 10x10 grid (`Board`): placement validation and writing of a ship's
  span, and dispatch of attacks to the target cell.
 */
module Boards {
  import opened Optional
  import opened ShipTypes
  import opened Ships
  import opened Cells

  /** Side of the square grid (`SIZE`). */
  const GridSize: int := 10

  /** Outcome of an attack, as named in `receiveAttack`'s documentation. */
  datatype ShotResult = Water | Hit | Sunk | AlreadyShot | OutOfBounds

  /** The grid, row by row. */
  datatype Board = Board(cells: seq<seq<Cell>>)

  /** `isValid`: the coordinate lies on the grid. */
  predicate IsValid(row: int, col: int)
  {
    row >= 0 && col >= 0 && row < GridSize && col < GridSize
  }

  /** The grid has `GridSize` rows of `GridSize` cells. */
  predicate Shaped(b: Board)
  {
    |b.cells| == GridSize && forall r :: 0 <= r < |b.cells| ==> |b.cells[r]| == GridSize
  }

  /** Every cell refers only into a heap of `n` ships, and only when a ship was placed on it. */
  ghost predicate BoardWellFormed(b: Board, n: nat)
  {
    Shaped(b) && forall r, c :: IsValid(r, c) ==> Cells.WellFormed(b.cells[r][c], n)
  }

  /** On a shaped board, `isValid` is exactly the condition under which the array access succeeds. */
  lemma ValidIsIndexable(b: Board, row: int, col: int)
    requires Shaped(b)
    ensures IsValid(row, col) <==> 0 <= row < |b.cells| && 0 <= col < |b.cells[row]|
  {
  }

  /** The board constructor: every cell is a new, empty cell. */
  function NewBoard(): (b: Board)
    ensures Shaped(b)
    ensures forall r, c :: IsValid(r, c) ==> b.cells[r][c] == NewCell()
    ensures forall n: nat :: BoardWellFormed(b, n)
  {
    Board(seq(GridSize, r => seq(GridSize, c => NewCell())))
  }

  /** The board with the cell at (`row`, `col`) replaced by `x`. */
  function SetCell(b: Board, row: int, col: int, x: Cell): (r: Board)
    requires Shaped(b) && IsValid(row, col)
    ensures Shaped(r)
    ensures forall i, j :: IsValid(i, j) ==>
              r.cells[i][j] == if i == row && j == col then x else b.cells[i][j]
  {
    Board(b.cells[row := b.cells[row][col := x]])
  }

  // ----- Spans -----

  /** Row of the `i`-th cell of a span: the row advances only when vertical (`dRow`). */
  function SpanRow(row: int, i: int, horizontal: bool): int
  {
    if horizontal then row else row + i
  }

  /** Column of the `i`-th cell of a span: the column advances only when horizontal (`dCol`). */
  function SpanCol(col: int, i: int, horizontal: bool): int
  {
    if horizontal then col + i else col
  }

  /** The cells of steps `lo` up to `hi` of a span, described without a step index. */
  predicate InSpan(row: int, col: int, horizontal: bool, lo: int, hi: int, r: int, c: int)
  {
    if horizontal then r == row && col + lo <= c < col + hi
    else c == col && row + lo <= r < row + hi
  }

  /** `InSpan` describes exactly the cells the walk visits in steps `lo` up to `hi`. */
  lemma InSpanIsSpanWalk(row: int, col: int, horizontal: bool, lo: int, hi: int, r: int, c: int)
    ensures InSpan(row, col, horizontal, lo, hi, r, c) <==>
            exists i :: lo <= i < hi && SpanRow(row, i, horizontal) == r && SpanCol(col, i, horizontal) == c
  {
    if InSpan(row, col, horizontal, lo, hi, r, c) {
      var i := if horizontal then c - col else r - row;
      assert SpanRow(row, i, horizontal) == r && SpanCol(col, i, horizontal) == c;
    }
  }

  /** Every cell of the first `size` steps of a span lies on the grid. */
  predicate SpanOnGrid(row: int, col: int, size: int, horizontal: bool)
  {
    forall i :: 0 <= i < size ==> IsValid(SpanRow(row, i, horizontal), SpanCol(col, i, horizontal))
  }

  /** `isWithinBounds`: a valid start and an end no further than the grid edge. */
  predicate IsWithinBounds(row: int, col: int, size: int, horizontal: bool)
  {
    if !IsValid(row, col) then false
    else if horizontal then col + size <= GridSize
    else row + size <= GridSize
  }

  /**
    For a span of at least one cell, `isWithinBounds` holds exactly when every
    cell of the span is on the grid.
   */
  lemma WithinBoundsIffSpanOnGrid(row: int, col: int, size: int, horizontal: bool)
    requires size >= 1
    ensures IsWithinBounds(row, col, size, horizontal) <==> SpanOnGrid(row, col, size, horizontal)
  {
    if SpanOnGrid(row, col, size, horizontal) {
      assert IsValid(SpanRow(row, 0, horizontal), SpanCol(col, 0, horizontal));
      assert IsValid(SpanRow(row, size - 1, horizontal), SpanCol(col, size - 1, horizontal));
    }
  }

  /** Whatever the size, `isWithinBounds` puts the whole span on the grid. */
  lemma WithinBoundsPutsSpanOnGrid(row: int, col: int, size: int, horizontal: bool)
    requires IsWithinBounds(row, col, size, horizontal)
    ensures SpanOnGrid(row, col, size, horizontal)
  {
  }

  /** Every cell of steps `i` up to `size` of the span is on the grid and EMPTY. */
  predicate FreeFrom(b: Board, row: int, col: int, size: int, horizontal: bool, i: int)
    requires Shaped(b)
  {
    forall j :: i <= j < size ==>
      && IsValid(SpanRow(row, j, horizontal), SpanCol(col, j, horizontal))
      && IsEmpty(b.cells[SpanRow(row, j, horizontal)][SpanCol(col, j, horizontal)])
  }

  /**
    `areCellsFree` on a span known to be on the grid: the walk of
    `iterateCells` with `isEmpty`, from step `i` on, stopping at the first
    cell that is not EMPTY.
   */
  function CellsFreeFrom(b: Board, row: int, col: int, size: int, horizontal: bool, i: int): (free: bool)
    requires Shaped(b) && SpanOnGrid(row, col, size, horizontal) && 0 <= i <= size
    ensures free <==> FreeFrom(b, row, col, size, horizontal, i)
    decreases size - i
  {
    if i == size then true
    else
      var r, c := SpanRow(row, i, horizontal), SpanCol(col, i, horizontal);
      if !IsEmpty(b.cells[r][c]) then false
      else CellsFreeFrom(b, row, col, size, horizontal, i + 1)
  }

  /**
    The writing walk of `placeShip`: from step `i` on, each span cell gets
    `setShip` with the ship of index `id`; every other cell is left alone.
   */
  function WriteSpan(b: Board, row: int, col: int, size: int, horizontal: bool, id: nat, i: int): (r: Board)
    requires Shaped(b) && SpanOnGrid(row, col, size, horizontal) && 0 <= i <= size
    ensures Shaped(r)
    ensures forall x, y :: IsValid(x, y) ==>
              r.cells[x][y] == if InSpan(row, col, horizontal, i, size, x, y) then SetShip(b.cells[x][y], id) else b.cells[x][y]
    decreases size - i
  {
    if i == size then b
    else
      var x, y := SpanRow(row, i, horizontal), SpanCol(col, i, horizontal);
      WriteSpan(SetCell(b, x, y, SetShip(b.cells[x][y], id)), row, col, size, horizontal, id, i + 1)
  }

  // ----- Placement -----

  /** The board after a placement attempt and the value `placeShip` returns. */
  datatype Placement = Placement(board: Board, placed: bool)

  /**
    `placeShip` with the bounds check first: the ship of index `id` is placed
    on its whole span when the span is on the grid and every span cell is
    EMPTY; otherwise nothing changes and the answer is false.
   */
  function PlaceShip(b: Board, ships: seq<Ship>, id: nat, row: int, col: int, horizontal: bool): (p: Placement)
    requires Shaped(b) && id < |ships|
    ensures Shaped(p.board)
    ensures p.placed <==>
              IsWithinBounds(row, col, GetSize(ships[id]), horizontal) &&
              FreeFrom(b, row, col, GetSize(ships[id]), horizontal, 0)
    ensures !p.placed ==> p.board == b
    ensures p.placed ==> forall r, c :: IsValid(r, c) && InSpan(row, col, horizontal, 0, GetSize(ships[id]), r, c) ==>
              IsEmpty(b.cells[r][c])
    ensures p.placed ==> forall r, c :: IsValid(r, c) ==>
              p.board.cells[r][c] ==
                if InSpan(row, col, horizontal, 0, GetSize(ships[id]), r, c) then Cell(Occupied, Some(id))
                else b.cells[r][c]
    ensures BoardWellFormed(b, |ships|) ==> BoardWellFormed(p.board, |ships|)
  {
    var size := GetSize(ships[id]);
    if !IsWithinBounds(row, col, size, horizontal) then Placement(b, false)
    else if !CellsFreeFrom(b, row, col, size, horizontal, 0) then Placement(b, false)
    else
      var b' := WriteSpan(b, row, col, size, horizontal, id, 0);
      assert forall r, c :: IsValid(r, c) && InSpan(row, col, horizontal, 0, size, r, c) ==>
               IsEmpty(b.cells[r][c]) by {
        forall r, c | IsValid(r, c) && InSpan(row, col, horizontal, 0, size, r, c)
          ensures IsEmpty(b.cells[r][c])
        {
          InSpanIsSpanWalk(row, col, horizontal, 0, size, r, c);
        }
      }
      Placement(b', true)
  }

  /** How the source's `iterateCells` walk ends: all cells passed, one failed, or an index left the array. */
  datatype Walk = Passed | Stopped | IndexOutOfRange

  /**
    `iterateCells` with `isEmpty` as the source runs it: the walk indexes the
    array before any bounds check, so a span that leaves the grid before a
    non-EMPTY cell is met raises an index exception.
   */
  function WalkFree(b: Board, row: int, col: int, size: int, horizontal: bool, i: int): (w: Walk)
    requires Shaped(b) && 0 <= i <= size
    ensures w == Passed <==> FreeFrom(b, row, col, size, horizontal, i)
    ensures SpanOnGrid(row, col, size, horizontal) ==> w != IndexOutOfRange
    decreases size - i
  {
    if i == size then Passed
    else
      var r, c := SpanRow(row, i, horizontal), SpanCol(col, i, horizontal);
      if !IsValid(r, c) then IndexOutOfRange
      else if !IsEmpty(b.cells[r][c]) then Stopped
      else WalkFree(b, row, col, size, horizontal, i + 1)
  }

  /** A placement in the source either returns a boolean or throws an index exception. */
  datatype Guarded = Returned(p: Placement) | ArrayIndexOutOfBounds

  /**
    `placeShip` as written: the occupancy walk runs before `isWithinBounds`
    (the `||` short-circuits left to right).
   */
  function PlaceShipAsWritten(b: Board, ships: seq<Ship>, id: nat, row: int, col: int, horizontal: bool): (g: Guarded)
    requires Shaped(b) && id < |ships|
    ensures g == ArrayIndexOutOfBounds ==> !IsWithinBounds(row, col, GetSize(ships[id]), horizontal)
    ensures g.Returned? ==> g.p == PlaceShip(b, ships, id, row, col, horizontal)
  {
    var size := GetSize(ships[id]);
    match WalkFree(b, row, col, size, horizontal, 0)
    case IndexOutOfRange => ArrayIndexOutOfBounds
    case Stopped => Returned(Placement(b, false))
    case Passed =>
      if !IsWithinBounds(row, col, size, horizontal) then Returned(Placement(b, false))
      else Returned(Placement(WriteSpan(b, row, col, size, horizontal, id, 0), true))
  }

  // ----- Attacks -----

  /** The board and ship heap after an attack, and the result reported. */
  datatype Shot = Shot(board: Board, ships: seq<Ship>, result: ShotResult)

  /** What an attack at (`row`, `col`) needs: a SHIP cell there refers into the heap. */
  predicate CanAttack(b: Board, n: nat, row: int, col: int)
    requires Shaped(b)
  {
    IsValid(row, col) ==> CanMark(b.cells[row][col], n)
  }

  /**
    `receiveAttack`: off-grid coordinates give OUT_OF_BOUNDS and change
    nothing; otherwise the target cell is marked and the result follows from
    its state before the attack: EMPTY gives WATER, SHIP gives HIT or SUNK as
    `receiveHit` reports, HIT or MISS gives ALREADY_SHOT.
   */
  function ReceiveAttack(b: Board, ships: seq<Ship>, row: int, col: int): (s: Shot)
    requires Shaped(b) && CanAttack(b, |ships|, row, col)
    ensures Shaped(s.board) && |s.ships| == |ships|
    ensures !IsValid(row, col) ==> s == Shot(b, ships, OutOfBounds)
    ensures IsValid(row, col) ==>
              var m := MarkAttack(b.cells[row][col], ships);
              && s.board.cells[row][col] == m.cell
              && s.ships == m.ships
              && (forall r, c :: IsValid(r, c) && (r != row || c != col) ==> s.board.cells[r][c] == b.cells[r][c])
    ensures IsValid(row, col) ==>
              var before := b.cells[row][col];
              && (before.state == Empty <==> s.result == Water)
              && (WasShot(before) <==> s.result == AlreadyShot)
              && (WasShot(before) ==> s.board == b && s.ships == ships)
              && (before.state == Occupied ==>
                    s.result == (if ReceiveHit(ships[before.ship.value]).sunk then Sunk else ShotResult.Hit))
    ensures BoardWellFormed(b, |ships|) ==> BoardWellFormed(s.board, |s.ships|)
    ensures (forall k :: 0 <= k < |ships| ==> Consistent(ships[k])) ==>
              forall k :: 0 <= k < |s.ships| ==> Consistent(s.ships[k])
  {
    if row < 0 || col < 0 || row >= GridSize || col >= GridSize then Shot(b, ships, OutOfBounds)
    else
      var before := b.cells[row][col];
      var m := MarkAttack(before, ships);
      var result :=
        match before.state
        case Empty => Water
        case Occupied => if m.ships[before.ship.value].sunk then Sunk else ShotResult.Hit
        case _ => AlreadyShot;
      var b' := if WasShot(before) then b else SetCell(b, row, col, m.cell);
      Shot(b', m.ships, result)
  }

  /** A second attack on the same coordinate reports ALREADY_SHOT (or OUT_OF_BOUNDS) and changes nothing. */
  lemma AttackTwiceChangesNothing(b: Board, ships: seq<Ship>, row: int, col: int)
    requires Shaped(b) && CanAttack(b, |ships|, row, col)
    ensures var once := ReceiveAttack(b, ships, row, col);
            CanAttack(once.board, |once.ships|, row, col) &&
            var twice := ReceiveAttack(once.board, once.ships, row, col);
            && twice.board == once.board
            && twice.ships == once.ships
            && twice.result == (if IsValid(row, col) then AlreadyShot else OutOfBounds)
  {
  }
}
