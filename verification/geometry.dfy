/**
 Cells and direction vectors of the Snake board. The game uses plain integer
 pairs for both: a cell is (x, y) with y growing downwards, a direction is the
 offset added to the head on every tick.
 */
module Geometry {

  /** A board cell, or a direction vector. */
  datatype Pos = Pos(x: int, y: int)

  const Right := Pos(1, 0)
  const Left := Pos(-1, 0)
  const Down := Pos(0, 1)
  const Up := Pos(0, -1)

  /** The cell reached from `p` by one step of `d`. */
  function Add(p: Pos, d: Pos): Pos
  {
    Pos(p.x + d.x, p.y + d.y)
  }

  /** The exact reverse of a direction: each component multiplied by -1. */
  function Neg(d: Pos): Pos
  {
    Pos(-d.x, -d.y)
  }

  /** One of the four directions the keyboard handler ever requests. */
  predicate IsUnit(d: Pos)
  {
    d == Right || d == Left || d == Down || d == Up
  }

  /** `q` is one unit step away from `p`. */
  predicate Adjacent(p: Pos, q: Pos)
  {
    IsUnit(Pos(q.x - p.x, q.y - p.y))
  }
}
