# Battleship board rules engine — a Dafny model

This project models the rules engine of one Battleship board from the Java
package `dev.shoangenes.model`:

- `ShipType` — the catalogue of five ship classes with their sizes and display names;
- `Ship` — a hit counter with a monotonic sunk flag;
- `Cell` — one grid position moving EMPTY → SHIP → HIT, or EMPTY → MISS;
- `Board` — the 10×10 grid that validates and writes a ship's span and dispatches attacks.

Everything is functional. A board is a `seq<seq<Cell>>`. Ships live in a
shared heap `seq<Ship>`, and a cell holds the optional index of its ship there.
So the cells of one ship share its hit count, as the Java object reference does.
Each operation returns the part of the state it may change, together with the Java method's return value if it has one.

Modules: `ShipTypes` (ship_type.dfy), `Ships` (ship.dfy), `Cells` (cell.dfy),
`Boards` (board.dfy), `HitAccounting` (hit_accounting.dfy: each ship's hit count
equals the number of HIT cells that refer to it), `Scenarios` (scenarios.dfy:
concrete plays), and `Optional` (optional.dfy).

## How Cell and Board are bridged

`Cell.java` and `Board.java` do not fit together.

- `Cell.markAttack` returns nothing and knows only four states.
- `Board.receiveAttack` returns its result as a `ShotResult`.
- `Board` calls `Cell::isEmpty`, which `Cell` does not define.

The model bridges them as follows:

- `Cells.MarkAttack` keeps the transitions of `Cell.java:45-52`. There is no SUNK cell state.
- `Cells.IsEmpty` is "state is EMPTY".
- `Boards.ReceiveAttack` derives the result from the target cell's state before the attack:
  - EMPTY gives WATER;
  - SHIP gives SUNK when `receiveHit` reports the ship sunk, and HIT otherwise;
  - HIT or MISS gives ALREADY_SHOT.
- The result names come from the documentation of `receiveAttack`.

`Board.java:88` lists SUNK among the results, and `Board.java:96` returns
`cell.markAttack()` as a `ShotResult`. But `Cell.java` has no SUNK state, and its
`markAttack` returns `void`. The model follows `Cell.java`.

`HitAccounting` relates the sunk flag to the cells. Take a board on which every ship's hit
count equals the number of HIT cells referring to it (`Accounted`). Take a ship that is
`Consistent` (sunk ⇔ hits ≥ size). Then that ship is sunk exactly when the HIT cells
referring to it number at least its size. Placement and attacks keep both hypotheses:
see `PlaceKeepsAccounted`, `AttackKeepsAccounted`, and the heap-consistency clause of
`Boards.ReceiveAttack`. What the cells do not record is which cell delivered the sinking hit.
A SUNK cell state would have carried that.

## Model

| member | source | states |
|---|---|---|
| ShipTypes.Size | src/main/java/dev/shoangenes/model/enums/ShipType.java:4-8 | every class occupies between 2 and 5 cells, so every size is positive, which the sunk test of `Ship` relies on |
| ShipTypes.StandardFleet | src/main/java/dev/shoangenes/model/enums/ShipType.java:35-37 | the standard fleet has five entries, one per class, each at its declaration position |
| ShipTypes.StandardFleetCells | src/main/java/dev/shoangenes/model/enums/ShipType.java:4-8 | the sizes of the standard fleet sum to 17 cells |
| ShipTypes.NameIdentifiesClass | src/main/java/dev/shoangenes/model/enums/ShipType.java:43-46 | two classes with the same display name are the same class |
| Ships.NewShip | src/main/java/dev/shoangenes/model/Ship.java:14-18 | a new ship has its class, 0 hits, is not sunk, and satisfies sunk ⇔ hits ≥ size |
| Ships.ReceiveHit | src/main/java/dev/shoangenes/model/Ship.java:32-38 | hits grow by exactly 1 with no cap; the class is kept; the returned flag is the sunk flag after the hit; that flag is raised iff the ship was sunk or the new count reaches the size; sunk is never lowered; sunk ⇔ hits ≥ size is preserved |
| Ships.FreshShipAfterHits | src/main/java/dev/shoangenes/model/Ship.java:32-38 | a fresh ship hit k times has exactly k hits and is sunk iff k ≥ its size |
| Ships.SinksOnTheSizeThHit | src/main/java/dev/shoangenes/model/Ship.java:32-38 | from a fresh ship, the k-th `receiveHit` returns true iff k ≥ size: the first size−1 calls return false and the size-th returns true |
| Ships.SunkIsMonotonic | src/main/java/dev/shoangenes/model/Ship.java:34-36 | a sunk ship stays sunk after any number of further hits |
| Ships.HitsKeepClass | src/main/java/dev/shoangenes/model/Ship.java:44-54 | hits never change what `getSize` and `getName` report; k hits add exactly k to the count and keep the ship consistent |
| Cells.NewCell | src/main/java/dev/shoangenes/model/Cell.java:12-14 | a new cell is EMPTY, not yet shot, has no ship, and is well formed |
| Cells.SetShip | src/main/java/dev/shoangenes/model/Cell.java:20-23 | after `setShip` the cell is in state SHIP, its ship is the placed one, and it is neither empty nor shot |
| Cells.MarkAttack | src/main/java/dev/shoangenes/model/Cell.java:45-52 | SHIP → HIT with exactly one `receiveHit` on that cell's ship and no other ship changed; EMPTY → MISS with no ship touched; HIT and MISS change nothing; afterwards the cell is always shot; the ship reference never changes; well-formedness is kept |
| Cells.MarkAttackIdempotent | src/main/java/dev/shoangenes/model/Cell.java:45-52 | marking twice leaves the cell and ships exactly as marking once |
| Boards.ValidIsIndexable | src/main/java/dev/shoangenes/model/Board.java:29-31 | `isValid(row, col)` holds exactly when `cells[row][col]` is inside the 10×10 array |
| Boards.NewBoard | src/main/java/dev/shoangenes/model/Board.java:14-21 | a new board is 10×10 and every cell is a new cell, EMPTY with no ship |
| Boards.InSpanIsSpanWalk | src/main/java/dev/shoangenes/model/Board.java:109-114 | the cells visited by the span walk in steps lo..hi−1 are exactly the cells in that stretch of the start's row (horizontal) or column (vertical) |
| Boards.WithinBoundsIffSpanOnGrid | src/main/java/dev/shoangenes/model/Board.java:53-63 | for size ≥ 1, `isWithinBounds` holds iff every cell of the span is on the grid |
| Boards.WithinBoundsPutsSpanOnGrid | src/main/java/dev/shoangenes/model/Board.java:53-63 | whenever `isWithinBounds` holds, every span cell is on the grid |
| Boards.CellsFreeFrom | src/main/java/dev/shoangenes/model/Board.java:41-43 | the occupancy walk answers true iff every span cell from the given step on is EMPTY |
| Boards.WriteSpan | src/main/java/dev/shoangenes/model/Board.java:78-81 | the writing walk applies `setShip` to exactly the span cells and leaves every other cell as it was |
| Boards.PlaceShip | src/main/java/dev/shoangenes/model/Board.java:72-82 | placement succeeds iff the span is within bounds and all its cells are EMPTY. On failure the board is unchanged. On success every span cell was EMPTY and is now SHIP referring to the placed ship, and every other cell is unchanged. Well-formedness is kept. (The bounds check comes first; see Findings.) |
| Boards.WalkFree | src/main/java/dev/shoangenes/model/Board.java:109-119 | the walk as the source runs it passes iff every span cell is on the grid and EMPTY, and it never leaves the array when the span is on the grid |
| Boards.PlaceShipAsWritten | src/main/java/dev/shoangenes/model/Board.java:72-82 | the source's order throws an index exception only for a span that is not within bounds; whenever it returns, it agrees with `Boards.PlaceShip` |
| Boards.ReceiveAttack | src/main/java/dev/shoangenes/model/Board.java:90-97 | off-grid gives OUT_OF_BOUNDS and changes nothing. On the grid, only the target cell (by `markAttack`) and its ship's hit count change. The result is WATER iff the cell was EMPTY and ALREADY_SHOT iff it was HIT or MISS; then nothing changes. A SHIP cell gives SUNK or HIT as `receiveHit` reports. Well-formedness is kept, and so is sunk ⇔ hits ≥ size for every ship of the heap. |
| Boards.AttackTwiceChangesNothing | src/main/java/dev/shoangenes/model/Board.java:90-97 | a repeated attack on the same coordinate gives ALREADY_SHOT (OUT_OF_BOUNDS off the grid) and changes neither board nor ships |
| HitAccounting.NewBoardAccounted | src/main/java/dev/shoangenes/model/Board.java:14-21 | a new board with a heap of undamaged ships satisfies "hits = number of HIT cells referring to the ship" |
| HitAccounting.PlaceKeepsAccounted | src/main/java/dev/shoangenes/model/Board.java:72-82 | placement, successful or not, keeps every ship's hit count equal to its HIT cells |
| HitAccounting.AttackKeepsAccounted | src/main/java/dev/shoangenes/model/Cell.java:46-48 | an attack adds a HIT cell for a ship exactly when it adds a hit to that ship, so the accounting is kept |
| HitAccounting.SunkIffEnoughHitCells | src/main/java/dev/shoangenes/model/Ship.java:32-38 | on an accounted board, a consistent ship is sunk iff at least its size of HIT cells refer to it |
| Scenarios.DestroyerRoundTrip | src/main/java/dev/shoangenes/model/Board.java:90-97 | Destroyer horizontal at (0,0): attack (0,0) gives HIT, (0,1) gives SUNK, (0,0) again gives ALREADY_SHOT |
| Scenarios.CruiserOverrunRefused | src/main/java/dev/shoangenes/model/Board.java:53-63 | Cruiser vertical at (8,0): the bounds-first placement returns false and the board stays empty |
| Scenarios.CruiserOverrunThrowsAsWritten | src/main/java/dev/shoangenes/model/Board.java:74 | the same placement in the source's order reaches `cells[10][0]` and throws |
| Scenarios.OverlapRefused | src/main/java/dev/shoangenes/model/Board.java:74-75 | a Cruiser crossing a placed Destroyer's cell is refused and the board is unchanged |
| Scenarios.WaterThenAlreadyShot | src/main/java/dev/shoangenes/model/Cell.java:49-50 | attacking an empty cell gives WATER, leaves it MISS with no ship, and a repeat gives ALREADY_SHOT |

## Findings

| source | as written | input that shows it | evidently intended | confidence | as-written member | corrected member |
|---|---|---|---|---|---|---|
| src/main/java/dev/shoangenes/model/Board.java:74 | `areCellsFree` runs before `isWithinBounds`, and its walk indexes `cells[row + i*dRow][col + i*dCol]` unchecked. A span that leaves the grid before meeting an occupied cell throws `ArrayIndexOutOfBoundsException`. | a Cruiser (size 3) placed vertically at (8,0) on an empty board reaches `cells[10][0]` | check bounds first and return false, leaving the board unchanged | not executed; high | Boards.PlaceShipAsWritten, Scenarios.CruiserOverrunThrowsAsWritten | Boards.PlaceShip, Scenarios.CruiserOverrunRefused |

The rest of the model (`HitAccounting`, `Scenarios`) uses the corrected `Boards.PlaceShip`.
`Boards.PlaceShipAsWritten` is proved to agree with it on every input where the source does not throw.

## Left out

- Ships.ReceiveHit: hits are unbounded integers. The source's `int` counter would wrap after 2^31 − 1 hits; the sunk flag stays true regardless.
- Object identity and aliasing of `Ship`: ships live in a heap sequence and cells hold an index into it. A `null` ship passed to `placeShip` or `setShip` is not modelled.
- `Cells.MarkAttack` and `Boards.ReceiveAttack` require that a SHIP cell refers to a ship of the heap. In Java a SHIP cell with a `null` ship would throw `NullPointerException`.
- `Cell.getShip` and `Cell.getState` are the fields `ship` and `state` of the `Cell` datatype, not separate functions.
- `Ship.isSunk`, `Ship.getSize` and `Ship.getName` are the plain delegations `Ships.IsSunk`, `Ships.GetSize` and `Ships.GetName`. Their stability under hits is stated by `Ships.HitsKeepClass`.
- The `Predicate` and lambda plumbing of `iterateCells` is not modelled. The walk is modelled as two walks (checking: `CellsFreeFrom`, `WalkFree`; writing: `WriteSpan`), with the same step order and count.
- `ArrayIndexOutOfBoundsException` appears only in `Boards.PlaceShipAsWritten`. It is an outcome value there, not an exception.
- The `ShotResult` and `CellState` enum files are not part of this model. Both enums are defined from the names used in `Board.java` and `Cell.java`.
- The array-copy semantics of `getStandardFleet` (a fresh array per call) are not modelled; it is a sequence value.
- Display strings are the table's literal names. Nothing about string content is stated beyond `ShipTypes.NameIdentifiesClass`.
- Turn sequencing, victory checks, rendering and threading are not part of the modelled classes.
