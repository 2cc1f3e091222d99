/**
  One grid position (`Cell`): a state among EMPTY, SHIP, HIT and MISS and an
  optional reference to the ship placed on it. Ships live in a shared heap
  (`seq<Ship>`); a cell holds the index of its ship there, so that every cell
  of one ship counts hits against the same record.
 */
module Cells {
  import opened Optional
  import opened Ships

  /** `CellState`; `Occupied` is the source's SHIP. */
  datatype CellState = Empty | Occupied | Hit | Miss

  datatype Cell = Cell(state: CellState, ship: Option<nat>)

  /** A cell has already been attacked: HIT and MISS are absorbing. */
  predicate WasShot(c: Cell)
  {
    c.state == Hit || c.state == Miss
  }

  /** `isEmpty`, read as "in state EMPTY". */
  predicate IsEmpty(c: Cell)
  {
    c.state == Empty
  }

  /**
    A cell refers to a ship exactly when a ship has been placed on it
    (SHIP, and HIT after an attack), and that reference is into a heap of `n` ships.
   */
  predicate WellFormed(c: Cell, n: nat)
  {
    && ((c.state == Occupied || c.state == Hit) <==> c.ship.Some?)
    && (c.ship.Some? ==> c.ship.value < n)
  }

  /** A new cell: EMPTY, no ship. */
  function NewCell(): (c: Cell)
    ensures IsEmpty(c) && !WasShot(c)
    ensures c.ship == None
    ensures forall n: nat :: WellFormed(c, n)
  {
    Cell(Empty, None)
  }

  /** `setShip`: the cell becomes SHIP and `getShip` then yields the placed ship. */
  function SetShip(c: Cell, id: nat): (r: Cell)
    ensures r.state == Occupied && r.ship == Some(id)
    ensures !IsEmpty(r) && !WasShot(r)
    ensures forall n: nat :: id < n ==> WellFormed(r, n)
  {
    Cell(Occupied, Some(id))
  }

  /** The attacked cell together with the ship heap after the attack. */
  datatype Attacked = Attacked(cell: Cell, ships: seq<Ship>)

  /** What `markAttack` needs: a SHIP cell refers to a ship of the heap (Java would dereference null otherwise). */
  predicate CanMark(c: Cell, n: nat)
  {
    c.state == Occupied ==> c.ship.Some? && c.ship.value < n
  }

  /**
    `markAttack`: SHIP becomes HIT and its ship receives exactly one hit;
    EMPTY becomes MISS and no ship is touched; HIT and MISS change nothing.
   */
  function MarkAttack(c: Cell, ships: seq<Ship>): (r: Attacked)
    requires CanMark(c, |ships|)
    ensures WasShot(r.cell)
    ensures r.cell.ship == c.ship
    ensures |r.ships| == |ships|
    ensures c.state == Occupied ==>
              && r.cell.state == Hit
              && r.ships == ships[c.ship.value := ReceiveHit(ships[c.ship.value]).ship]
    ensures c.state == Empty ==> r.cell.state == Miss && r.ships == ships
    ensures WasShot(c) <==> r == Attacked(c, ships)
    ensures WellFormed(c, |ships|) ==> WellFormed(r.cell, |r.ships|)
  {
    match c.state
    case Occupied =>
      var id := c.ship.value;
      Attacked(Cell(Hit, c.ship), ships[id := ReceiveHit(ships[id]).ship])
    case Empty =>
      Attacked(Cell(Miss, c.ship), ships)
    case _ =>
      Attacked(c, ships)
  }

  /** Attacking a cell twice leaves it, and the ships, as the first attack left them. */
  lemma MarkAttackIdempotent(c: Cell, ships: seq<Ship>)
    requires CanMark(c, |ships|)
    ensures var once := MarkAttack(c, ships);
            MarkAttack(once.cell, once.ships) == once
  {
  }
}
