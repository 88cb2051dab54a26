// The game state of the maze: an H-by-W grid of points, the characters that
// walk on it, the turn counter, the collected score and the evaluated score
// used to rank states during search.
module Maze {
  import opened Geometry
  import opened Enclosure

  /** The character list. It is an object of its own because a state built
    * from a snapshot keeps the caller's list rather than a copy of it. */
  class CoordList {
    var items: seq<Coord>

    constructor (items: seq<Coord>)
      ensures this.items == items
    {
      this.items := items;
    }
  }

  /** `b` has the dimensions and the contents of `a`. */
  ghost predicate SameCells(b: array2<int>, a: array2<int>)
    reads a, b
  {
    && b.Length0 == a.Length0 && b.Length1 == a.Length1
    && forall r, c :: 0 <= r < a.Length0 && 0 <= c < a.Length1 ==> b[r, c] == a[r, c]
  }

  /** A fresh array with the dimensions and contents of `a` (the array's Clone). */
  method CloneGrid(a: array2<int>) returns (b: array2<int>)
    ensures fresh(b) && SameCells(b, a)
  {
    b := new int[a.Length0, a.Length1]((r, c) reads a =>
      if 0 <= r < a.Length0 && 0 <= c < a.Length1 then a[r, c] else 0);
  }

  /** The value copy of a point array, indexed `[row][column]`. */
  ghost function GridOf(a: array2<int>): (g: seq<seq<int>>)
    reads a
    ensures Shaped(g, a.Length0, a.Length1)
    ensures forall r, c :: 0 <= r < a.Length0 && 0 <= c < a.Length1 ==> g[r][c] == a[r, c]
  {
    seq(a.Length0, r requires 0 <= r < a.Length0 reads a =>
      seq(a.Length1, c requires 0 <= c < a.Length1 reads a => a[r, c]))
  }

  // ---------------------------------------------------------------------
  // The padded mask of the flood fill: flag 1 = still enclosed, 0 = cleared.

  ghost predicate Cleared(m: array2<int>, c: Cell)
    reads m
  {
    0 <= c.y < m.Length0 && 0 <= c.x < m.Length1 && m[c.y, c.x] == 0
  }

  ghost predicate Flags01(m: array2<int>)
    reads m
  {
    forall r, c :: 0 <= r < m.Length0 && 0 <= c < m.Length1 ==> m[r, c] == 0 || m[r, c] == 1
  }

  /** The cleared cells of the mask. */
  ghost function Zeros(m: array2<int>): set<Cell>
    reads m
  {
    set r, c | 0 <= r < m.Length0 && 0 <= c < m.Length1 && m[r, c] == 0 :: Cell(c, r)
  }

  lemma ZerosAreCleared(m: array2<int>)
    ensures forall c :: c in Zeros(m) <==> Cleared(m, c)
  {
  }

  /** The number of random draws the seeded constructor has taken before it
    * reaches cell (y, x) of the 3-by-4 board: one per cell in row-major
    * order, none for the start cell (sy, sx). */
  function Consumed(y: int, x: int, sy: int, sx: int): int
  {
    if y * 4 + x <= sy * 4 + sx then y * 4 + x else y * 4 + x - 1
  }

  /** The loops of the seeded constructor: a 3-by-4 point array whose start
    * cell stays 0 and whose other cells take the draws in row-major order. */
  method DrawPoints(startY: int, startX: int, draws: seq<int>) returns (grid: array2<int>)
    requires 0 <= startY < 3 && 0 <= startX < 4
    requires |draws| == 11 && forall i :: 0 <= i < |draws| ==> 0 <= draws[i] < 10
    ensures fresh(grid) && grid.Length0 == 3 && grid.Length1 == 4
    ensures grid[startY, startX] == 0
    ensures forall y, x :: 0 <= y < 3 && 0 <= x < 4 && (y, x) != (startY, startX) ==>
      grid[y, x] == draws[Consumed(y, x, startY, startX)]
    ensures forall y, x :: 0 <= y < 3 && 0 <= x < 4 ==> 0 <= grid[y, x] < 10
  {
    grid := new int[3, 4]((_, _) => 0);
    var k := 0;
    var y := 0;
    while y < 3
      invariant 0 <= y <= 3
      invariant k == Consumed(y, 0, startY, startX)
      invariant grid[startY, startX] == 0
      invariant forall r, c :: 0 <= r < y && 0 <= c < 4 && (r, c) != (startY, startX) ==>
        grid[r, c] == draws[Consumed(r, c, startY, startX)]
      invariant forall r, c :: 0 <= r < 3 && 0 <= c < 4 ==> 0 <= grid[r, c] < 10
    {
      var x := 0;
      while x < 4
        invariant 0 <= x <= 4
        invariant k == Consumed(y, x, startY, startX)
        invariant grid[startY, startX] == 0
        invariant forall r, c :: 0 <= r < y && 0 <= c < 4 && (r, c) != (startY, startX) ==>
          grid[r, c] == draws[Consumed(r, c, startY, startX)]
        invariant forall c :: 0 <= c < x && (y, c) != (startY, startX) ==>
          grid[y, c] == draws[Consumed(y, c, startY, startX)]
        invariant forall r, c :: 0 <= r < 3 && 0 <= c < 4 ==> 0 <= grid[r, c] < 10
      {
        if y == startY && x == startX {
          x := x + 1;
          continue;
        }
        grid[y, x] := draws[k];
        k := k + 1;
        x := x + 1;
      }
      y := y + 1;
    }
  }

  /** The loops of evaluateScore: the sum of the points whose flag is 1. */
  method SumFlagged(flags: array2<int>, pts: array2<int>) returns (total: int)
    requires flags.Length0 == pts.Length0 && flags.Length1 == pts.Length1
    ensures total == FlaggedSum(GridOf(pts), GridOf(flags), pts.Length0, pts.Length1, pts.Length0)
  {
    ghost var g := GridOf(pts);
    ghost var f := GridOf(flags);
    total := 0;
    var h := 0;
    while h < pts.Length0
      invariant 0 <= h <= pts.Length0
      invariant total == FlaggedSum(g, f, pts.Length0, pts.Length1, h)
    {
      var w := 0;
      while w < pts.Length1
        invariant 0 <= w <= pts.Length1
        invariant total == FlaggedSum(g, f, pts.Length0, pts.Length1, h)
                         + RowFlaggedSum(g, f, pts.Length0, pts.Length1, h, w)
      {
        if flags[h, w] == 1 {
          total := total + pts[h, w];
        }
        w := w + 1;
      }
      h := h + 1;
    }
  }

  /** The trimming loop of getMaskedState: drops the padding ring. */
  method TrimPadding(m: array2<int>) returns (trim: array2<int>)
    requires m.Length0 >= 2 && m.Length1 >= 2
    ensures fresh(trim) && trim.Length0 == m.Length0 - 2 && trim.Length1 == m.Length1 - 2
    ensures forall r, c :: 0 <= r < trim.Length0 && 0 <= c < trim.Length1 ==> trim[r, c] == m[r + 1, c + 1]
  {
    trim := new int[m.Length0 - 2, m.Length1 - 2];
    var h := 1;
    while h < m.Length0 - 1
      invariant 1 <= h <= m.Length0 - 1
      invariant forall r, c :: 0 <= r < h - 1 && 0 <= c < trim.Length1 ==> trim[r, c] == m[r + 1, c + 1]
      modifies trim
    {
      var w := 1;
      ghost var row := h - 1;
      while w < m.Length1 - 1
        invariant 1 <= w <= m.Length1 - 1
        invariant forall r, c :: 0 <= r < h - 1 && 0 <= c < trim.Length1 ==> trim[r, c] == m[r + 1, c + 1]
        invariant forall c :: 0 <= c < w - 1 ==> trim[row, c] == m[row + 1, c + 1]
        modifies trim
      {
        trim[h - 1, w - 1] := m[h, w];
        w := w + 1;
      }
      h := h + 1;
    }
  }

  class MazeState {
    var H: int
    var W: int
    var EndTurn: int
    var points: array2<int>
    var turn: int
    var characters: CoordList
    var gameScore: int
    var evaluatedScore: int
    var firstAction: int

    ghost predicate Valid()
      reads this`H, this`W, this`points
    {
      points.Length0 == H && points.Length1 == W
    }

    /** The points as a value, indexed `[row][column]`. */
    ghost function Grid(): (g: seq<seq<int>>)
      reads this`points, points
    {
      GridOf(points)
    }

    /**
     * The seeded constructor on a 3-by-4 board with 4 turns. The random draws
     * are inputs: the character's row `startY` and column `startX`, then one
     * draw in 0..9 for every other cell, in row-major order; the start cell
     * consumes no draw and keeps point value 0.
     */
    constructor Seeded(startY: int, startX: int, draws: seq<int>)
      requires 0 <= startY < 3 && 0 <= startX < 4
      requires |draws| == 11 && forall i :: 0 <= i < |draws| ==> 0 <= draws[i] < 10
      ensures Valid() && H == 3 && W == 4 && EndTurn == 4
      ensures turn == 0 && gameScore == 0 && evaluatedScore == 0 && firstAction == -1
      ensures fresh(points) && fresh(characters)
      ensures characters.items == [Coord(startX, startY)]
      ensures points[startY, startX] == 0
      ensures forall y, x :: 0 <= y < 3 && 0 <= x < 4 && (y, x) != (startY, startX) ==>
        points[y, x] == draws[Consumed(y, x, startY, startX)]
      ensures forall y, x :: 0 <= y < 3 && 0 <= x < 4 ==> 0 <= points[y, x] < 10
    {
      var grid := DrawPoints(startY, startX, draws);
      H, W, EndTurn := 3, 4, 4;
      points := grid;
      turn, gameScore, evaluatedScore, firstAction := 0, 0, 0, -1;
      characters := new CoordList([Coord(startX, startY)]);
    }

    /**
     * The snapshot constructor. The points are cloned, but the character list
     * is the caller's own object: advancing this state moves the caller's
     * characters too.
     */
    constructor Snapshot(width: int, height: int, endTurn: int, turn: int, points: array2<int>,
                         gameScore: int, characters: CoordList)
      requires points.Length0 == height && points.Length1 == width
      ensures Valid() && W == width && H == height && EndTurn == endTurn
      ensures this.turn == turn && this.gameScore == gameScore
      ensures evaluatedScore == 0 && firstAction == -1
      ensures this.characters == characters
      ensures fresh(this.points) && SameCells(this.points, points)
    {
      var grid := CloneGrid(points);
      W, H, EndTurn := width, height, endTurn;
      this.turn := turn;
      this.characters := characters;
      this.points := grid;
      this.gameScore := gameScore;
      evaluatedScore, firstAction := 0, -1;
    }

    /** The game is over once the turn counter reaches the last turn. */
    predicate IsDone()
      reads this`turn, this`EndTurn
    {
      turn == EndTurn
    }

    /**
     * Moves character `index` by `action`, collects the point value of the
     * destination (which becomes 0) when it is positive, and advances the turn.
     */
    method Advance(action: int, index: int)
      requires Valid()
      requires 0 <= index < |characters.items|
      requires Legal(characters.items[index], W, H, action)
      modifies this`gameScore, this`turn, points, characters
      ensures var t := Moved(old(characters.items[index]), action);
        && characters.items == old(characters.items)[index := t]
        && InBounds(characters.items[index], W, H)
        && (old(points[t.y, t.x]) > 0 ==>
              gameScore == old(gameScore) + old(points[t.y, t.x]) && points[t.y, t.x] == 0)
        && (old(points[t.y, t.x]) <= 0 ==>
              gameScore == old(gameScore) && points[t.y, t.x] == old(points[t.y, t.x]))
        && forall r, c :: 0 <= r < H && 0 <= c < W && (r, c) != (t.y, t.x) ==> points[r, c] == old(points[r, c])
      ensures turn == old(turn) + 1
      ensures IsDone() <==> old(turn) + 1 == EndTurn
    {
      var character := characters.items[index];
      character := Coord(character.x + Dx[action], character.y + Dy[action]);
      characters.items := characters.items[index := character];
      var point := points[character.y, character.x];
      if point > 0 {
        gameScore := gameScore + point;
        points[character.y, character.x] := 0;
      }
      turn := turn + 1;
    }

    /**
     * The actions, in increasing order, whose destination stays on the board.
     */
    method LegalActions(index: int) returns (actions: seq<int>)
      requires 0 <= index < |characters.items|
      ensures forall a :: a in actions <==> Legal(characters.items[index], W, H, a)
      ensures forall i, j :: 0 <= i < j < |actions| ==> actions[i] < actions[j]
    {
      actions := [];
      var action := 0;
      while action < 4
        invariant 0 <= action <= 4
        invariant forall a :: a in actions <==> 0 <= a < action && Legal(characters.items[index], W, H, a)
        invariant forall i :: 0 <= i < |actions| ==> actions[i] < action
        invariant forall i, j :: 0 <= i < j < |actions| ==> actions[i] < actions[j]
      {
        var ty := characters.items[index].y + Dy[action];
        var tx := characters.items[index].x + Dx[action];
        if ty >= 0 && ty < H && tx >= 0 && tx < W {
          actions := actions + [action];
        }
        action := action + 1;
      }
    }

    /**
     * A copy whose scalar fields equal this state's, with its own point array
     * and its own character list.
     */
    method Copy() returns (s: MazeState)
      requires Valid()
      ensures fresh(s) && fresh(s.points) && fresh(s.characters)
      ensures s.Valid() && s.H == H && s.W == W && s.EndTurn == EndTurn && s.turn == turn
      ensures s.gameScore == gameScore && s.evaluatedScore == evaluatedScore && s.firstAction == firstAction
      ensures s.characters.items == characters.items
      ensures SameCells(s.points, points)
    {
      var list := new CoordList(characters.items);
      s := new MazeState.Snapshot(W, H, EndTurn, turn, points, gameScore, list);
      s.evaluatedScore := evaluatedScore;
      s.firstAction := firstAction;
    }

    /**
     * Copy independence: a copy can be advanced while this state, its points
     * and its characters stay exactly as they were (the method may modify
     * nothing that existed before it was called).
     */
    method AdvanceCopy(action: int, index: int) returns (child: MazeState)
      requires Valid()
      requires 0 <= index < |characters.items|
      requires Legal(characters.items[index], W, H, action)
      ensures fresh(child) && child.Valid()
      ensures child.characters.items == characters.items[index := Moved(characters.items[index], action)]
      ensures child.turn == turn + 1
      ensures var t := Moved(characters.items[index], action);
        child.gameScore == gameScore + (if points[t.y, t.x] > 0 then points[t.y, t.x] else 0)
      ensures unchanged(this, points, characters)
    {
      child := Copy();
      child.Advance(action, index);
    }

    /**
     * checkTile: clears the flag of padded cell (x, y) and spreads to its eight
     * neighbours, unless (x, y) is off the padded board, already cleared, or
     * blocking. `pending` holds the cells further up the call stack, whose
     * neighbours are still being visited.
     *
     * Deviation from the code as written: the source tests `points_[y, x]`
     * with padded coordinates, which reads outside the H-by-W array on the
     * padding ring. Here the padding ring never blocks and padded (x, y)
     * reads points[y - 1, x - 1].
     */
    method CheckTile(m: array2<int>, x: int, y: int,
                     ghost g: seq<seq<int>>, ghost reach: set<Cell>, ghost pending: set<Cell>)
      requires Valid() && g == Grid() && m != points
      requires m.Length0 == H + 2 && m.Length1 == W + 2 && Flags01(m)
      requires ClosedExcept(g, H, W, reach, {})
      requires Open(g, H, W, Cell(x, y)) ==> Cell(x, y) in reach
      requires Zeros(m) <= reach && ClosedExcept(g, H, W, Zeros(m), pending)
      modifies m
      decreases PadCells(H, W) - Zeros(m)
      ensures Flags01(m) && old(Zeros(m)) <= Zeros(m)
      ensures !Open(g, H, W, Cell(x, y)) || old(Cleared(m, Cell(x, y))) ==> unchanged(m)
      ensures Open(g, H, W, Cell(x, y)) ==> Cell(x, y) in Zeros(m)
      ensures Zeros(m) <= reach && ClosedExcept(g, H, W, Zeros(m), pending)
    {
      if x < 0 || x > W + 1 || y < 0 || y > H + 1 {
        return;
      } else if m[y, x] == 0 {
        ZerosAreCleared(m);
        return;
      } else if 1 <= x <= W && 1 <= y <= H && points[y - 1, x - 1] == 0 {
        return;
      } else {
        ghost var c := Cell(x, y);
        ghost var p := pending + {c};
        ghost var all := PadCells(H, W);
        ghost var z0 := Zeros(m);
        ZerosAreCleared(m);
        m[y, x] := 0;
        ghost var z := Zeros(m);
        ZerosAreCleared(m);
        assert z == z0 + {c};
        // The eight recursive calls of the source, in its order.
        var k := 0;
        while k < 8
          invariant 0 <= k <= 8
          invariant Flags01(m) && z <= Zeros(m) <= reach
          invariant ClosedExcept(g, H, W, Zeros(m), p)
          invariant forall j :: 0 <= j < k && Open(g, H, W, Neighbour(c, j)) ==> Neighbour(c, j) in Zeros(m)
        {
          var nx, ny := x + NDx[k], y + NDy[k];
          ghost var n := Neighbour(c, k);
          ghost var before := Zeros(m);
          assert n == Cell(nx, ny) && c in reach;
          FewerToClear(all, z0, before, c);
          NeighbourIsAdjacent(c, k);
          CheckTile(m, nx, ny, g, reach, p);
          assert before <= Zeros(m);
          assert Open(g, H, W, n) ==> n in Zeros(m);
          k := k + 1;
        }
        ReleasePending(g, H, W, Zeros(m), pending, c);
      }
    }

    /**
     * The fill stage of getMaskedState: a padded (H + 2)-by-(W + 2) mask, all
     * flags 1, after checkTile from the padded corner has cleared to 0
     * exactly the cells reachable from that corner.
     */
    method FillMask() returns (m: array2<int>)
      requires Valid()
      ensures fresh(m) && m.Length0 == H + 2 && m.Length1 == W + 2
      ensures forall r, c :: 0 <= r < H + 2 && 0 <= c < W + 2 ==>
        m[r, c] == if Reachable(Grid(), H, W, Cell(c, r)) then 0 else 1
      ensures forall r, c :: 1 <= r <= H && 1 <= c <= W ==>
        m[r, c] == if Enclosed(Grid(), H, W, r - 1, c - 1) then 1 else 0
    {
      m := new int[H + 2, W + 2];
      var h := 0;
      while h < H + 2
        invariant 0 <= h <= H + 2
        invariant forall r, c :: 0 <= r < h && 0 <= c < W + 2 ==> m[r, c] == 1
      {
        var w := 0;
        while w < W + 2
          invariant 0 <= w <= W + 2
          invariant forall r, c :: 0 <= r < h && 0 <= c < W + 2 ==> m[r, c] == 1
          invariant forall c :: 0 <= c < w ==> m[h, c] == 1
        {
          m[h, w] := 1;
          w := w + 1;
        }
        h := h + 1;
      }

      ghost var g := Grid();
      CornerReachable(g, H, W);
      ghost var reach := ReachableCells(g, H, W);
      ReachableCellsClosed(g, H, W);
      ZerosAreCleared(m);
      assert Zeros(m) == {};
      CheckTile(m, 0, 0, g, reach, {});
      ZerosAreCleared(m);
      forall r, c | 0 <= r < H + 2 && 0 <= c < W + 2
        ensures m[r, c] == if Reachable(g, H, W, Cell(c, r)) then 0 else 1
      {
        var cell := Cell(c, r);
        if Reachable(g, H, W, cell) {
          ReachableInClosedSet(g, H, W, Zeros(m), cell);
        } else {
          assert cell !in Zeros(m);
        }
      }
    }

    /**
     * getMaskedState: flag 1 for every grid cell that the fill from the padded
     * corner cannot reach (enclosed), 0 for every other.
     *
     * Deviation from the code as written: the source copies `masked[h, w]`
     * into `trim[h, w]` of an H-by-W array for 1 <= h <= H, 1 <= w <= W,
     * which writes past its last row and column; here `trim[h - 1, w - 1]`.
     */
    method GetMaskedState() returns (trim: array2<int>)
      requires Valid()
      ensures fresh(trim) && trim.Length0 == H && trim.Length1 == W
      ensures forall r, c :: 0 <= r < H && 0 <= c < W ==>
        trim[r, c] == if Enclosed(Grid(), H, W, r, c) then 1 else 0
    {
      var m := FillMask();
      trim := TrimPadding(m);
    }

    /**
     * evaluateScore: the evaluated score becomes the sum of the points of the
     * enclosed cells; no other field changes.
     */
    method EvaluateScore()
      requires Valid()
      modifies this`evaluatedScore
      ensures evaluatedScore == EnclosedSum(Grid(), H, W, H)
    {
      var masked := GetMaskedState();
      var totalScore := SumFlagged(masked, points);
      FlaggedSumIsEnclosed(Grid(), GridOf(masked), H, W, H);
      evaluatedScore := totalScore;
    }
  }

  /** Int64.CompareTo: -1, 0 or 1 as `a` is below, equal to or above `b`. */
  function CompareTo(a: int, b: int): (r: int)
    ensures r == -1 <==> a < b
    ensures r == 0 <==> a == b
    ensures r == 1 <==> a > b
  {
    if a < b then -1 else if a == b then 0 else 1
  }

  /**
   * MazeStateComparer.Compare: compares the evaluated scores the other way
   * round, so that the state with the higher score comes first.
   */
  function Compare(x: MazeState, y: MazeState): (r: int)
    reads x`evaluatedScore, y`evaluatedScore
    ensures r < 0 <==> x.evaluatedScore > y.evaluatedScore
    ensures r == 0 <==> x.evaluatedScore == y.evaluatedScore
    ensures r > 0 <==> x.evaluatedScore < y.evaluatedScore
  {
    CompareTo(y.evaluatedScore, x.evaluatedScore)
  }

  lemma CompareAntisymmetric(x: MazeState, y: MazeState)
    ensures Compare(x, y) == -Compare(y, x)
  {
  }

  /**
   * A sequence in which each state compares at most equal to its successor
   * has non-increasing evaluated scores: the best state comes first.
   */
  lemma {:induction false} SortedByCompareIsDescending(s: seq<MazeState>)
    requires forall i :: 0 < i < |s| ==> Compare(s[i - 1], s[i]) <= 0
    ensures forall i, j :: 0 <= i <= j < |s| ==> s[i].evaluatedScore >= s[j].evaluatedScore
  {
    if |s| > 1 {
      var t := s[1..];
      assert forall i :: 0 < i < |t| ==> t[i - 1] == s[i] && t[i] == s[i + 1];
      SortedByCompareIsDescending(t);
      assert Compare(s[0], s[1]) <= 0;
      forall i, j | 0 <= i <= j < |s| ensures s[i].evaluatedScore >= s[j].evaluatedScore {
        if i > 0 {
          assert s[i] == t[i - 1] && s[j] == t[j - 1];
        } else if j > 0 {
          assert s[j] == t[j - 1] && s[1] == t[0];
        }
      }
    }
  }
}
