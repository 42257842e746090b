/**
 * The zig-zag order as a walk over the block (figure A.6 of T.81): from the DC coefficient to the
 * right, then down and to the left to the edge, up and to the right to the edge, and so on. The
 * table is proved to be that walk.
 */
module ZigZagWalk {
  import opened ZigZag

  /** A place in the block, and whether the walk goes up from it. */
  datatype Place = Place(row: nat, column: nat, up: bool)

  /** The next place: along the antidiagonal, or at the edge on to the next one and back. */
  function Next(p: Place): Place {
    if p.up then
      if p.column == 7 then Place(p.row + 1, 7, false)
      else if p.row == 0 then Place(0, p.column + 1, false)
      else Place(p.row - 1, p.column + 1, true)
    else
      if p.row == 7 then Place(7, p.column + 1, true)
      else if p.column == 0 then Place(p.row + 1, 0, true)
      else Place(p.row + 1, p.column - 1, false)
  }

  function Walk(k: nat): Place {
    if k == 0 then Place(0, 0, true) else Next(Walk(k - 1))
  }

  ghost predicate Agrees(k: nat) {
    k < 64 && Walk(k).row < 8 && Walk(k).column < 8 && Natural(k) == 8 * Walk(k).row + Walk(k).column
  }
}
