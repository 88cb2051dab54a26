// Board geometry of the maze game: character coordinates, the four move
// directions and which of them stay on an H-by-W board.
module Geometry {

  /** A character position; `x` is the column and `y` the row. */
  datatype Coord = Coord(x: int, y: int)

  /** Move table, indexed by action: right, left, down, up. */
  const Dx: seq<int> := [1, -1, 0, 0]
  const Dy: seq<int> := [0, 0, 1, -1]

  /** The position reached from `c` by `action`. */
  function Moved(c: Coord, action: int): Coord
    requires 0 <= action < 4
  {
    Coord(c.x + Dx[action], c.y + Dy[action])
  }

  predicate InBounds(c: Coord, w: int, h: int)
  {
    0 <= c.x < w && 0 <= c.y < h
  }

  /** `action` is a legal move for a character at `c` on a `w`-by-`h` board. */
  predicate Legal(c: Coord, w: int, h: int, action: int)
  {
    0 <= action < 4 && InBounds(Moved(c, action), w, h)
  }

  /** The four actions move exactly one cell, each in its own direction. */
  lemma MovedIsOneStep(c: Coord, action: int)
    requires 0 <= action < 4
    ensures action == 0 ==> Moved(c, action) == Coord(c.x + 1, c.y)
    ensures action == 1 ==> Moved(c, action) == Coord(c.x - 1, c.y)
    ensures action == 2 ==> Moved(c, action) == Coord(c.x, c.y + 1)
    ensures action == 3 ==> Moved(c, action) == Coord(c.x, c.y - 1)
  {
  }

  /**
   * A character standing on the board has no legal move exactly when the
   * board is a single cell.
   */
  lemma NoLegalActionIffSingleCell(c: Coord, w: int, h: int)
    requires InBounds(c, w, h)
    ensures (forall a :: !Legal(c, w, h, a)) <==> (w == 1 && h == 1)
  {
    if w == 1 && h == 1 {
      forall a ensures !Legal(c, w, h, a) {
        if 0 <= a < 4 {
          MovedIsOneStep(c, a);
        }
      }
    } else if w > 1 {
      var a := if c.x + 1 < w then 0 else 1;
      MovedIsOneStep(c, a);
      assert Legal(c, w, h, a);
    } else {
      var a := if c.y + 1 < h then 2 else 3;
      MovedIsOneStep(c, a);
      assert Legal(c, w, h, a);
    }
  }
}
