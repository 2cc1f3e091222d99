/**
  One vessel (`Ship`): its class, the number of hits it has received and a
  sunk flag that `receiveHit` sets once the hits reach the class size.
 */
module Ships {
  import opened ShipTypes

  datatype Ship = Ship(kind: ShipType, hits: int, sunk: bool)

  /** The relation between hits and the sunk flag that every ship keeps. */
  predicate Consistent(s: Ship)
  {
    s.hits >= 0 && (s.sunk <==> s.hits >= Size(s.kind))
  }

  /** A freshly built ship of class `t`: undamaged and afloat. */
  function NewShip(t: ShipType): (s: Ship)
    ensures s.kind == t && s.hits == 0 && !s.sunk
    ensures Consistent(s)
  {
    Ship(t, 0, false)
  }

  /** The ship after a hit, and the value `receiveHit` returns. */
  datatype HitReport = HitReport(ship: Ship, sunk: bool)

  /**
    `receiveHit`: one more hit (there is no cap), the sunk flag raised when
    the hits reach the size and never lowered; returns the flag after the hit.
   */
  function ReceiveHit(s: Ship): (r: HitReport)
    ensures r.ship.kind == s.kind
    ensures r.ship.hits == s.hits + 1
    ensures r.sunk == r.ship.sunk
    ensures r.sunk <==> s.sunk || s.hits + 1 >= Size(s.kind)
    ensures s.sunk ==> r.ship.sunk
    ensures Consistent(s) ==> Consistent(r.ship)
  {
    var hits := s.hits + 1;
    var sunk := if hits >= Size(s.kind) then true else s.sunk;
    HitReport(Ship(s.kind, hits, sunk), sunk)
  }

  /** `isSunk`. */
  function IsSunk(s: Ship): bool
  {
    s.sunk
  }

  /** `getSize`: the size of the ship's class. */
  function GetSize(s: Ship): int
  {
    Size(s.kind)
  }

  /** `getName`: the display name of the ship's class. */
  function GetName(s: Ship): string
  {
    Name(s.kind)
  }

  /** The ship after `k` successive calls of `receiveHit`. */
  function HitTimes(s: Ship, k: nat): Ship
  {
    if k == 0 then s else ReceiveHit(HitTimes(s, k - 1)).ship
  }

  /** A fresh ship hit `k` times has exactly `k` hits and is sunk iff `k` reaches its size. */
  lemma {:induction false} FreshShipAfterHits(t: ShipType, k: nat)
    ensures HitTimes(NewShip(t), k) == Ship(t, k, k >= Size(t))
  {
    if k > 0 {
      FreshShipAfterHits(t, k - 1);
    }
  }

  /**
    From a fresh ship of size `n`, the `k`-th call of `receiveHit` reports
    sunk exactly when `k >= n`: the first `n - 1` calls return false and the
    `n`-th returns true.
   */
  lemma SinksOnTheSizeThHit(t: ShipType, k: nat)
    requires k >= 1
    ensures ReceiveHit(HitTimes(NewShip(t), k - 1)).sunk <==> k >= Size(t)
    ensures IsSunk(HitTimes(NewShip(t), k)) <==> k >= Size(t)
  {
    FreshShipAfterHits(t, k - 1);
    FreshShipAfterHits(t, k);
  }

  /** Once sunk, a ship stays sunk however often it is hit. */
  lemma {:induction false} SunkIsMonotonic(s: Ship, k: nat)
    requires s.sunk
    ensures HitTimes(s, k).sunk
  {
    if k > 0 {
      SunkIsMonotonic(s, k - 1);
    }
  }

  /** Hits never change what `getSize` and `getName` report, and keep a ship consistent. */
  lemma {:induction false} HitsKeepClass(s: Ship, k: nat)
    ensures GetSize(HitTimes(s, k)) == GetSize(s)
    ensures GetName(HitTimes(s, k)) == GetName(s)
    ensures HitTimes(s, k).hits == s.hits + k
    ensures Consistent(s) ==> Consistent(HitTimes(s, k))
  {
    if k > 0 {
      HitsKeepClass(s, k - 1);
    }
  }
}
