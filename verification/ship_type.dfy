/**
  The static catalogue of ship classes (the `ShipType` enum): five classes,
  each with a size in cells and a display name.
 */
module ShipTypes {

  /** The ship classes, in declaration order. */
  datatype ShipType = AircraftCarrier | Battleship | Cruiser | Submarine | Destroyer

  /** Position of a class in the declaration order (what `values()` follows). */
  function Ordinal(t: ShipType): (k: nat)
    ensures k < 5
  {
    match t
    case AircraftCarrier => 0
    case Battleship => 1
    case Cruiser => 2
    case Submarine => 3
    case Destroyer => 4
  }

  /** Number of cells a ship of this class occupies (`getSize`). */
  function Size(t: ShipType): (n: int)
    ensures 2 <= n <= 5
  {
    match t
    case AircraftCarrier => 5
    case Battleship => 4
    case Cruiser => 3
    case Submarine => 3
    case Destroyer => 2
  }

  /** Display name of a class (`toString`). */
  function Name(t: ShipType): string
  {
    match t
    case AircraftCarrier => "Aircraft Carrier"
    case Battleship => "Battleship"
    case Cruiser => "Cruiser"
    case Submarine => "Submarine"
    case Destroyer => "Destroyer"
  }

  /** The standard fleet (`getStandardFleet`): every class once, in declaration order. */
  function StandardFleet(): (fleet: seq<ShipType>)
    ensures |fleet| == 5
    ensures forall i :: 0 <= i < |fleet| ==> Ordinal(fleet[i]) == i
    ensures forall t :: fleet[Ordinal(t)] == t
  {
    [AircraftCarrier, Battleship, Cruiser, Submarine, Destroyer]
  }

  /** Total number of cells a sequence of classes occupies. */
  function TotalSize(fleet: seq<ShipType>): int
  {
    if |fleet| == 0 then 0 else Size(fleet[0]) + TotalSize(fleet[1..])
  }

  /** The standard fleet covers 17 cells: 5 + 4 + 3 + 3 + 2. */
  lemma StandardFleetCells()
    ensures TotalSize(StandardFleet()) == 17
  {
    var f := StandardFleet();
    assert f[1..][1..][1..][1..][1..] == [];
  }

  /** The display name identifies the class. */
  lemma NameIdentifiesClass(a: ShipType, b: ShipType)
    ensures Name(a) == Name(b) ==> a == b
  {
    if a != b {
      assert Name(a)[0] != Name(b)[0] || |Name(a)| != |Name(b)|;
    }
  }
}
