/**
 * The smallest and the largest coordinate of a list of particles along one axis, which both the
 * grid and the tree engine start from.
 */
module Extent {
  import opened Integrator

  function Coordinate(p: Particle, alongX: bool): real { if alongX then p.x else p.y }

  /** The least coordinate of the first n particles. */
  function Lowest(ps: seq<Particle>, n: nat, alongX: bool): real
    requires 0 < n <= |ps|
  {
    var c := Coordinate(ps[n - 1], alongX);
    if n == 1 then c else if c < Lowest(ps, n - 1, alongX) then c else Lowest(ps, n - 1, alongX)
  }

  function Highest(ps: seq<Particle>, n: nat, alongX: bool): real
    requires 0 < n <= |ps|
  {
    var c := Coordinate(ps[n - 1], alongX);
    if n == 1 then c else if c > Highest(ps, n - 1, alongX) then c else Highest(ps, n - 1, alongX)
  }

  lemma {:induction false} AllWithinBounds(ps: seq<Particle>, n: nat, alongX: bool, i: nat)
    requires i < n <= |ps|
    ensures Lowest(ps, n, alongX) <= Coordinate(ps[i], alongX) <= Highest(ps, n, alongX)
  {
    if i < n - 1 {
      AllWithinBounds(ps, n - 1, alongX, i);
    }
  }

  lemma {:induction false} SameExtent(ps: seq<Particle>, qs: seq<Particle>, n: nat, alongX: bool)
    requires SamePlaces(ps, qs) && 0 < n <= |ps|
    ensures Lowest(ps, n, alongX) == Lowest(qs, n, alongX) && Highest(ps, n, alongX) == Highest(qs, n, alongX)
  {
    if n > 1 {
      SameExtent(ps, qs, n - 1, alongX);
    }
  }

  /** The loops over `minX`, `maxX` and the like, for one axis. */
  method Bounds(ps: seq<Particle>, alongX: bool) returns (low: real, high: real)
    requires ps != []
    ensures low == Lowest(ps, |ps|, alongX) && high == Highest(ps, |ps|, alongX)
  {
    low, high := Coordinate(ps[0], alongX), Coordinate(ps[0], alongX);
    for i := 1 to |ps|
      invariant low == Lowest(ps, i, alongX) && high == Highest(ps, i, alongX)
    {
      var c := Coordinate(ps[i], alongX);
      if c < low { low := c; }
      if c > high { high := c; }
    }
  }
}
