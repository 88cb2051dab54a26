// Which tiles of the maze are "enclosed": the theory behind the flood fill
// of MazeState.getMaskedState / checkTile, stated on a value copy of the
// point grid.
//
// The H-by-W grid is padded by one cell on every side, giving padded cells
// (x, y) with 0 <= x <= W + 1 and 0 <= y <= H + 1. Padded cell (x, y) with
// 1 <= x <= W and 1 <= y <= H stands for grid cell g[y - 1][x - 1]; it blocks
// the fill when its point value is 0 (the start cell and every consumed
// cell). The padding ring never blocks. A cell is reachable when an
// 8-connected path of non-blocking cells leads to it from the corner (0, 0);
// a grid cell is enclosed when its padded cell is not reachable.
module Enclosure {

  datatype Cell = Cell(x: int, y: int)

  /** The padded corner the fill starts from. */
  const Corner := Cell(0, 0)

  /** `g` is an `h`-by-`w` grid, indexed `g[row][column]`. */
  predicate Shaped(g: seq<seq<int>>, h: int, w: int)
  {
    w >= 0 && |g| == h && forall r :: 0 <= r < |g| ==> |g[r]| == w
  }

  predicate InPad(h: int, w: int, c: Cell)
  {
    0 <= c.x <= w + 1 && 0 <= c.y <= h + 1
  }

  /** A padded cell inside the grid whose point value is 0. */
  predicate Wall(g: seq<seq<int>>, c: Cell)
  {
    1 <= c.y <= |g| && 1 <= c.x <= |g[c.y - 1]| && g[c.y - 1][c.x - 1] == 0
  }

  predicate Open(g: seq<seq<int>>, h: int, w: int, c: Cell)
  {
    InPad(h, w, c) && !Wall(g, c)
  }

  /** 8-neighbour adjacency: orthogonal or diagonal, never the cell itself. */
  predicate Adjacent(a: Cell, b: Cell)
  {
    a != b && -1 <= a.x - b.x <= 1 && -1 <= a.y - b.y <= 1
  }

  /** `p` is a path of open cells from the corner, each step to a neighbour:
    * the corner alone, or a path extended by an open neighbour of its end. */
  ghost predicate IsPath(g: seq<seq<int>>, h: int, w: int, p: seq<Cell>)
    decreases |p|
  {
    if |p| <= 1 then p == [Corner] && Open(g, h, w, Corner)
    else
      && IsPath(g, h, w, p[..|p| - 1])
      && Adjacent(p[|p| - 2], p[|p| - 1])
      && Open(g, h, w, p[|p| - 1])
  }

  ghost predicate Reachable(g: seq<seq<int>>, h: int, w: int, c: Cell)
  {
    exists p :: IsPath(g, h, w, p) && p[|p| - 1] == c
  }

  /** Grid cell (row `r`, column `col`) is enclosed: the fill cannot reach it. */
  ghost predicate Enclosed(g: seq<seq<int>>, h: int, w: int, r: int, col: int)
  {
    !Reachable(g, h, w, Cell(col + 1, r + 1))
  }

  /** Sum of the points of the enclosed cells among the first `k` cells of row `r`. */
  ghost function RowEnclosedSum(g: seq<seq<int>>, h: int, w: int, r: int, k: int): int
    requires Shaped(g, h, w) && 0 <= r < h && 0 <= k <= w
  {
    if k == 0 then 0
    else RowEnclosedSum(g, h, w, r, k - 1) + (if Enclosed(g, h, w, r, k - 1) then g[r][k - 1] else 0)
  }

  /** Sum of the points of the enclosed cells in the first `k` rows. */
  ghost function EnclosedSum(g: seq<seq<int>>, h: int, w: int, k: int): int
    requires Shaped(g, h, w) && 0 <= k <= h
  {
    if k == 0 then 0 else EnclosedSum(g, h, w, k - 1) + RowEnclosedSum(g, h, w, k - 1, w)
  }

  /** Sum of `g[r][c]` over the first `k` cells of row `r` whose flag in `f` is 1. */
  ghost function RowFlaggedSum(g: seq<seq<int>>, f: seq<seq<int>>, h: int, w: int, r: int, k: int): int
    requires Shaped(g, h, w) && Shaped(f, h, w) && 0 <= r < h && 0 <= k <= w
  {
    if k == 0 then 0
    else RowFlaggedSum(g, f, h, w, r, k - 1) + (if f[r][k - 1] == 1 then g[r][k - 1] else 0)
  }

  /** Sum of `g[r][c]` over the cells of the first `k` rows whose flag in `f` is 1. */
  ghost function FlaggedSum(g: seq<seq<int>>, f: seq<seq<int>>, h: int, w: int, k: int): int
    requires Shaped(g, h, w) && Shaped(f, h, w) && 0 <= k <= h
  {
    if k == 0 then 0 else FlaggedSum(g, f, h, w, k - 1) + RowFlaggedSum(g, f, h, w, k - 1, w)
  }

  /** `f` flags 1 exactly the enclosed cells of `g`, and 0 every other. */
  ghost predicate EnclosureFlags(g: seq<seq<int>>, f: seq<seq<int>>, h: int, w: int)
    requires Shaped(f, h, w)
  {
    forall r, c :: 0 <= r < h && 0 <= c < w ==> f[r][c] == if Enclosed(g, h, w, r, c) then 1 else 0
  }

  lemma {:induction false} RowFlaggedSumIsEnclosed(g: seq<seq<int>>, f: seq<seq<int>>, h: int, w: int, r: int, k: int)
    requires Shaped(g, h, w) && Shaped(f, h, w) && EnclosureFlags(g, f, h, w)
    requires 0 <= r < h && 0 <= k <= w
    ensures RowFlaggedSum(g, f, h, w, r, k) == RowEnclosedSum(g, h, w, r, k)
  {
    if k > 0 {
      RowFlaggedSumIsEnclosed(g, f, h, w, r, k - 1);
    }
  }

  /** Summing the points under the enclosure flags gives the enclosed sum. */
  lemma {:induction false} FlaggedSumIsEnclosed(g: seq<seq<int>>, f: seq<seq<int>>, h: int, w: int, k: int)
    requires Shaped(g, h, w) && Shaped(f, h, w) && EnclosureFlags(g, f, h, w) && 0 <= k <= h
    ensures FlaggedSum(g, f, h, w, k) == EnclosedSum(g, h, w, k)
  {
    if k > 0 {
      FlaggedSumIsEnclosed(g, f, h, w, k - 1);
      RowFlaggedSumIsEnclosed(g, f, h, w, k - 1, w);
    }
  }

  // ---------------------------------------------------------------------
  // Reachability

  lemma CornerReachable(g: seq<seq<int>>, h: int, w: int)
    requires h >= 0 && w >= 0
    ensures Reachable(g, h, w, Corner)
  {
  }

  /** Only open cells are reachable; in particular a wall never is. */
  lemma ReachableIsOpen(g: seq<seq<int>>, h: int, w: int, c: Cell)
    requires Reachable(g, h, w, c)
    ensures Open(g, h, w, c) && !Wall(g, c)
  {
  }

  /** Reachability spreads to every open neighbour. */
  lemma ReachableStep(g: seq<seq<int>>, h: int, w: int, c: Cell, n: Cell)
    requires Reachable(g, h, w, c) && Adjacent(c, n) && Open(g, h, w, n)
    ensures Reachable(g, h, w, n)
  {
    var p :| IsPath(g, h, w, p) && p[|p| - 1] == c;
    var q := p + [n];
    assert q[..|q| - 1] == p;
    assert IsPath(g, h, w, q);
  }

  /** The eight neighbour offsets, in the order the fill visits them. */
  const NDx: seq<int> := [1, 1, 1, 0, 0, -1, -1, -1]
  const NDy: seq<int> := [1, 0, -1, 1, -1, 1, 0, -1]

  /** Neighbour number `k` of `c`. */
  function Neighbour(c: Cell, k: int): Cell
    requires 0 <= k < 8
  {
    Cell(c.x + NDx[k], c.y + NDy[k])
  }

  /** The table lists each of the eight neighbours exactly once. */
  lemma NeighbourIsAdjacent(c: Cell, k: int)
    requires 0 <= k < 8
    ensures Adjacent(c, Neighbour(c, k))
    ensures forall j :: 0 <= j < 8 && j != k ==> Neighbour(c, j) != Neighbour(c, k)
  {
  }

  /** The position of an adjacent cell in the neighbour table. */
  function NeighbourIndex(a: Cell, b: Cell): (k: int)
    requires Adjacent(a, b)
    ensures 0 <= k < 8 && Neighbour(a, k) == b
  {
    if b.x == a.x + 1 then (if b.y == a.y + 1 then 0 else if b.y == a.y then 1 else 2)
    else if b.x == a.x then (if b.y == a.y + 1 then 3 else 4)
    else (if b.y == a.y + 1 then 5 else if b.y == a.y then 6 else 7)
  }

  /** The reachable cells form the least set that holds the corner and is
    * closed under stepping to open neighbours. */
  lemma {:induction false} ReachableInClosedSet(g: seq<seq<int>>, h: int, w: int, z: set<Cell>, c: Cell)
    requires Corner in z
    requires forall a, b :: a in z && Adjacent(a, b) && Open(g, h, w, b) ==> b in z
    requires Reachable(g, h, w, c)
    ensures c in z
  {
    var p :| IsPath(g, h, w, p) && p[|p| - 1] == c;
    PathInClosedSet(g, h, w, z, p);
  }

  lemma {:induction false} PathInClosedSet(g: seq<seq<int>>, h: int, w: int, z: set<Cell>, p: seq<Cell>)
    requires Corner in z
    requires forall a, b :: a in z && Adjacent(a, b) && Open(g, h, w, b) ==> b in z
    requires IsPath(g, h, w, p)
    ensures p[|p| - 1] in z
  {
    if |p| > 1 {
      var q := p[..|p| - 1];
      PathInClosedSet(g, h, w, z, q);
      assert Adjacent(p[|p| - 2], p[|p| - 1]);
    }
  }

  // ---------------------------------------------------------------------
  // Invariants of the flood fill, on the set of cleared cells

  /** Every cell of `z` outside `pending` (the cells whose neighbours are still
    * being visited) has all its open neighbours in `z`. */
  ghost predicate ClosedExcept(g: seq<seq<int>>, h: int, w: int, z: set<Cell>, pending: set<Cell>)
  {
    forall a, b :: a in z && a !in pending && Adjacent(a, b) && Open(g, h, w, b) ==> b in z
  }

  /** All cells of the padded board. */
  ghost function PadCells(h: int, w: int): (s: set<Cell>)
    ensures forall c :: c in s <==> InPad(h, w, c)
  {
    set r, c | 0 <= r < h + 2 && 0 <= c < w + 2 :: Cell(c, r)
  }

  /** The reachable cells, as a set. */
  ghost function ReachableCells(g: seq<seq<int>>, h: int, w: int): (s: set<Cell>)
    ensures forall c :: c in s <==> Reachable(g, h, w, c)
  {
    forall c | Reachable(g, h, w, c) ensures InPad(h, w, c) {
      ReachableIsOpen(g, h, w, c);
    }
    set c | c in PadCells(h, w) && Reachable(g, h, w, c)
  }

  /** The reachable cells are closed under stepping to an open neighbour. */
  lemma ReachableCellsClosed(g: seq<seq<int>>, h: int, w: int)
    ensures ClosedExcept(g, h, w, ReachableCells(g, h, w), {})
  {
    var s := ReachableCells(g, h, w);
    forall a, b | a in s && Adjacent(a, b) && Open(g, h, w, b) ensures b in s {
      ReachableStep(g, h, w, a, b);
    }
  }

  /** Once every open neighbour of pending cell `c` is in `z`, `c` is no
    * longer pending. */
  lemma ReleasePending(g: seq<seq<int>>, h: int, w: int, z: set<Cell>, pending: set<Cell>, c: Cell)
    requires ClosedExcept(g, h, w, z, pending + {c})
    requires forall k :: 0 <= k < 8 && Open(g, h, w, Neighbour(c, k)) ==> Neighbour(c, k) in z
    ensures ClosedExcept(g, h, w, z, pending)
  {
    forall a, b | a in z && a !in pending && Adjacent(a, b) && Open(g, h, w, b) ensures b in z {
      if a == c {
        var k := NeighbourIndex(c, b);
      }
    }
  }

  /** A cleared set that grows by a new cell leaves fewer cells to clear. */
  lemma FewerToClear(all: set<Cell>, z0: set<Cell>, z: set<Cell>, c: Cell)
    requires c in all && c !in z0 && z0 + {c} <= z
    ensures all - z < all - z0
  {
  }

  // ---------------------------------------------------------------------
  // The padding ring and the border of the grid

  lemma {:induction false} TopRowReachable(g: seq<seq<int>>, h: int, w: int, k: int)
    requires h >= 0 && w >= 0 && 0 <= k <= w + 1
    ensures Reachable(g, h, w, Cell(k, 0))
  {
    if k == 0 {
      CornerReachable(g, h, w);
    } else {
      TopRowReachable(g, h, w, k - 1);
      ReachableStep(g, h, w, Cell(k - 1, 0), Cell(k, 0));
    }
  }

  lemma {:induction false} LeftColumnReachable(g: seq<seq<int>>, h: int, w: int, k: int)
    requires h >= 0 && w >= 0 && 0 <= k <= h + 1
    ensures Reachable(g, h, w, Cell(0, k))
  {
    if k == 0 {
      CornerReachable(g, h, w);
    } else {
      LeftColumnReachable(g, h, w, k - 1);
      ReachableStep(g, h, w, Cell(0, k - 1), Cell(0, k));
    }
  }

  lemma {:induction false} BottomRowReachable(g: seq<seq<int>>, h: int, w: int, k: int)
    requires Shaped(g, h, w) && 0 <= k <= w + 1
    ensures Reachable(g, h, w, Cell(k, h + 1))
  {
    if k == 0 {
      LeftColumnReachable(g, h, w, h + 1);
    } else {
      BottomRowReachable(g, h, w, k - 1);
      ReachableStep(g, h, w, Cell(k - 1, h + 1), Cell(k, h + 1));
    }
  }

  lemma {:induction false} RightColumnReachable(g: seq<seq<int>>, h: int, w: int, k: int)
    requires Shaped(g, h, w) && 0 <= k <= h + 1
    ensures Reachable(g, h, w, Cell(w + 1, k))
  {
    if k == 0 {
      TopRowReachable(g, h, w, w + 1);
    } else {
      RightColumnReachable(g, h, w, k - 1);
      ReachableStep(g, h, w, Cell(w + 1, k - 1), Cell(w + 1, k));
    }
  }

  /** Every cell of the padding ring is reachable: it can never be enclosed. */
  lemma RingReachable(g: seq<seq<int>>, h: int, w: int, c: Cell)
    requires Shaped(g, h, w)
    requires InPad(h, w, c) && (c.x == 0 || c.y == 0 || c.x == w + 1 || c.y == h + 1)
    ensures Reachable(g, h, w, c)
  {
    if c.y == 0 {
      TopRowReachable(g, h, w, c.x);
    } else if c.x == 0 {
      LeftColumnReachable(g, h, w, c.y);
    } else if c.y == h + 1 {
      BottomRowReachable(g, h, w, c.x);
    } else {
      RightColumnReachable(g, h, w, c.y);
    }
  }

  /** A grid cell on the outer row or column is enclosed exactly when it is a
    * wall (point value 0), so it never adds to the enclosed sum. */
  lemma BorderCellEnclosedIffWall(g: seq<seq<int>>, h: int, w: int, r: int, col: int)
    requires Shaped(g, h, w)
    requires 0 <= r < h && 0 <= col < w
    requires r == 0 || r == h - 1 || col == 0 || col == w - 1
    ensures Enclosed(g, h, w, r, col) <==> g[r][col] == 0
  {
    var c := Cell(col + 1, r + 1);
    if g[r][col] == 0 {
      if Reachable(g, h, w, c) {
        ReachableIsOpen(g, h, w, c);
      }
    } else {
      var n := if r == 0 then Cell(col + 1, 0)
               else if r == h - 1 then Cell(col + 1, h + 1)
               else if col == 0 then Cell(0, r + 1)
               else Cell(w + 1, r + 1);
      RingReachable(g, h, w, n);
      ReachableStep(g, h, w, n, c);
    }
  }

  /** A zero-point (blocking) cell is never reached, so it always keeps
    * its enclosed flag. */
  lemma WallIsEnclosed(g: seq<seq<int>>, h: int, w: int, r: int, col: int)
    requires Shaped(g, h, w) && 0 <= r < h && 0 <= col < w && g[r][col] == 0
    ensures Enclosed(g, h, w, r, col)
  {
  }

  /** Without any wall every cell of column `col` of the padded grid is reachable. */
  lemma {:induction false} ColumnReachableWithoutWalls(g: seq<seq<int>>, h: int, w: int, col: int, k: int)
    requires Shaped(g, h, w)
    requires forall r, c :: 0 <= r < h && 0 <= c < w ==> g[r][c] != 0
    requires 0 <= col <= w + 1 && 0 <= k <= h + 1
    ensures Reachable(g, h, w, Cell(col, k))
  {
    if k == 0 {
      TopRowReachable(g, h, w, col);
    } else {
      ColumnReachableWithoutWalls(g, h, w, col, k - 1);
      ReachableStep(g, h, w, Cell(col, k - 1), Cell(col, k));
    }
  }

  lemma {:induction false} RowSumWithoutWalls(g: seq<seq<int>>, h: int, w: int, r: int, k: int)
    requires Shaped(g, h, w) && 0 <= r < h && 0 <= k <= w
    requires forall r, c :: 0 <= r < h && 0 <= c < w ==> g[r][c] != 0
    ensures RowEnclosedSum(g, h, w, r, k) == 0
  {
    if k > 0 {
      RowSumWithoutWalls(g, h, w, r, k - 1);
      ColumnReachableWithoutWalls(g, h, w, k, r + 1);
    }
  }

  /** A grid in which no cell has point value 0 encloses nothing: its enclosed
    * sum is 0. */
  lemma {:induction false} NoWallsEncloseNothing(g: seq<seq<int>>, h: int, w: int, k: int)
    requires Shaped(g, h, w) && 0 <= k <= h
    requires forall r, c :: 0 <= r < h && 0 <= c < w ==> g[r][c] != 0
    ensures EnclosedSum(g, h, w, k) == 0
  {
    if k > 0 {
      NoWallsEncloseNothing(g, h, w, k - 1);
      RowSumWithoutWalls(g, h, w, k - 1, w);
    }
  }
}
