/**
  The board engine: a game owns a height x width grid, a score and an icon
  supply. It validates swap moves, finds runs (read-only or clearing and
  scoring them), collapses and refills columns, and cascades until the
  board holds no run.
 */
module GameImpl {
  import opened Board
  import opened Runs
  import opened Gravity

  /**
    The four conditions select checks before touching the grid: two cells,
    adjacent, carrying different icons, both inside the grid.
   */
  predicate MoveAllowed(cells: seq<Cell>, w: nat, h: nat)
  {
    |cells| == 2 && Adjacent(cells[0], cells[1]) && cells[0].icon != cells[1].icon &&
    InGrid(cells[0], w, h) && InGrid(cells[1], w, h)
  }

  /** g with the positions of the two cells exchanged. */
  function SwapOf(g: Grid, w: nat, cells: seq<Cell>): (g': Grid)
    requires Rect(g, w) && MoveAllowed(cells, w, |g|)
    ensures |g'| == |g| && Rect(g', w)
  {
    Swap(g, cells[0].row, cells[0].col, cells[1].row, cells[1].col)
  }

  /** The board the supply seeds: row-major, position (i, j) takes draw i * w + j. */
  function InitialGrid(h: nat, w: nat, supply: nat -> IconType): (g: Grid)
    ensures |g| == h && Rect(g, w)
  {
    seq(h, i requires 0 <= i < h => seq(w, j requires 0 <= j < w => Some(supply(i * w + j))))
  }

  /**
    One round of the cascade on values: clear and score every run, then
    collapse and refill every column, left to right, with the draws that
    follow d. The result is the grid and the draw count it leaves.
   */
  function Round(g: Grid, w: nat, supply: nat -> IconType, d: nat): (r: (Grid, nat))
    requires Rect(g, w)
    ensures |r.0| == |g| && Rect(r.0, w) && Full(r.0) && r.1 >= d
  {
    ResolvedFull(Cleared(g, w), w, supply, d);
    (Resolved(Cleared(g, w), w, supply, d), d + DrawsBefore(Cleared(g, w), w, w))
  }

  /** A round's grid and draw count, named part by part. */
  lemma {:induction false} RoundParts(g: Grid, w: nat, supply: nat -> IconType, d: nat, g': Grid, d': nat)
    requires Rect(g, w)
    requires g' == Resolved(Cleared(g, w), w, supply, d) && d' == d + DrawsBefore(Cleared(g, w), w, w)
    ensures (g', d') == Round(g, w, supply, d)
  {
  }

  /**
    The construction-time stabilisation on values: rounds are played while
    the grid has a run and fuel remains.
   */
  function Cascade(g: Grid, w: nat, supply: nat -> IconType, d: nat, fuel: nat): (r: (Grid, nat))
    requires Rect(g, w)
    ensures |r.0| == |g| && Rect(r.0, w) && r.1 >= d
    decreases fuel
  {
    if fuel > 0 && HasRun(g, w) then
      var next := Round(g, w, supply, d);
      Cascade(next.0, w, supply, next.1, fuel - 1)
    else (g, d)
  }

  /** One round of the cascade: a grid with a run is cleared, collapsed and refilled. */
  lemma {:induction false} CascadeStep(g: Grid, w: nat, supply: nat -> IconType, d: nat, fuel: nat,
                                       next: (Grid, nat))
    requires Rect(g, w) && fuel > 0 && HasRun(g, w)
    requires next == Round(g, w, supply, d)
    ensures Cascade(g, w, supply, d, fuel) == Cascade(next.0, w, supply, next.1, fuel - 1)
  {
  }

  /** The cascade leaves a grid without runs, or one it had no fuel left for, as it is. */
  lemma {:induction false} CascadeStops(g: Grid, w: nat, supply: nat -> IconType, d: nat, fuel: nat)
    requires Rect(g, w) && (fuel == 0 || !HasRun(g, w))
    ensures Cascade(g, w, supply, d, fuel) == (g, d)
  {
  }

  /** The cascade keeps a full grid full, and fills any grid it runs on at least once. */
  lemma {:induction false} CascadeFull(g: Grid, w: nat, supply: nat -> IconType, d: nat, fuel: nat)
    requires Rect(g, w) && (Full(g) || (fuel > 0 && HasRun(g, w)))
    ensures Full(Cascade(g, w, supply, d, fuel).0)
    decreases fuel
  {
    if fuel > 0 && HasRun(g, w) {
      var next := Round(g, w, supply, d);
      CascadeFull(next.0, w, supply, next.1, fuel - 1);
      CascadeStep(g, w, supply, d, fuel, next);
    } else {
      CascadeStops(g, w, supply, d, fuel);
    }
  }

  class Game {
    /** Number of columns. */
    const width: nat
    /** Number of rows. */
    const height: nat
    /** The icon source: its k-th icon is supply(k). */
    const supply: nat -> IconType
    /** The grid of icons, height rows of width positions. */
    var grid: Grid
    /** Current score of the game. */
    var score: nat
    /** How many icons have been taken from the supply so far. */
    var drawn: nat

    ghost predicate Valid()
      reads this
    {
      |grid| == height && Rect(grid, width)
    }

    /**
      A game of the given size: every position seeded from the supply, in
      row-major order, and the score zero.
     */
    constructor (width: nat, height: nat, supply: nat -> IconType)
      ensures Valid()
      ensures this.width == width && this.height == height && this.supply == supply
      ensures grid == InitialGrid(height, width, supply) && Full(grid)
      ensures drawn == height * width && score == 0
    {
      this.width := width;
      this.height := height;
      this.supply := supply;
      grid := seq(height, _ => seq(width, _ => None));
      score := 0;
      drawn := 0;
      new;
      for i := 0 to height
        invariant Valid() && score == 0
        invariant drawn == i * width
        invariant forall r, c :: 0 <= r < height && 0 <= c < width ==>
          grid[r][c] == if r < i then Some(supply(r * width + c)) else None
      {
        for j := 0 to width
          invariant Valid() && score == 0
          invariant drawn == i * width + j
          invariant forall r, c :: 0 <= r < height && 0 <= c < width ==>
            grid[r][c] == if r < i || (r == i && c < j) then Some(supply(r * width + c)) else None
        {
          var t := Generate();
          grid := SetCell(grid, i, j, Some(t));
        }
        assert (i + 1) * width == i * width + width;
      }
      assert forall r :: 0 <= r < height ==> grid[r] == InitialGrid(height, width, supply)[r];
    }

    /** The next icon of the supply. */
    method Generate() returns (t: IconType)
      modifies this`drawn
      ensures t == supply(old(drawn)) && drawn == old(drawn) + 1
    {
      t := supply(drawn);
      drawn := drawn + 1;
    }

    /** The number of columns: every row of the grid has this length. */
    function GetWidth(): (w: nat)
      reads this
      ensures w == width
      ensures Valid() ==> forall r :: 0 <= r < |grid| ==> |grid[r]| == w
    {
      width
    }

    /** The number of rows of the grid. */
    function GetHeight(): (h: nat)
      reads this
      ensures h == height
      ensures Valid() ==> |grid| == h
    {
      height
    }

    /** The current score. */
    function GetScore(): (s: nat)
      reads this
      ensures s == score
    {
      score
    }

    /**
      The slot at (row, col), indexed as Python indexes a list: a negative
      index counts from the end, any other index outside the grid is an
      IndexError (None).
     */
    function GetIcon(row: int, col: int): (r: Option<Slot>)
      requires Valid()
      reads this
      ensures r.Some? <==> -(height as int) <= row < height && -(width as int) <= col < width
      ensures 0 <= row < height && 0 <= col < width ==> r == Some(grid[row][col])
      ensures -(height as int) <= row < 0 && 0 <= col < width ==> r == Some(grid[row + height][col])
    {
      match (PyIndex(row, height), PyIndex(col, width))
      case (Some(i), Some(j)) => Some(grid[i][j])
      case _ => None
    }

    /**
      Writes icon at (row, col), indexed as GetIcon indexes; ok is false
      (an IndexError) and nothing changes when the position is outside.
     */
    method SetIcon(row: int, col: int, icon: Slot) returns (ok: bool)
      requires Valid()
      modifies this`grid
      ensures Valid()
      ensures ok <==> -(height as int) <= row < height && -(width as int) <= col < width
      ensures ok ==> GetIcon(row, col) == Some(icon)
      ensures ok ==> forall r, c ::
        (Within(r, c, height, width) && (r, c) != (PyIndex(row, height).value, PyIndex(col, width).value))
        ==> grid[r][c] == old(grid)[r][c]
      ensures !ok ==> grid == old(grid)
    {
      match (PyIndex(row, height), PyIndex(col, width))
      case (Some(i), Some(j)) =>
        grid := SetCell(grid, i, j, icon);
        ok := true;
      case _ =>
        ok := false;
    }

    /** Exchanges the icons at (i, j) and (k, l). */
    method SwapIcons(i: nat, j: nat, k: nat, l: nat)
      requires Valid() && Within(i, j, height, width) && Within(k, l, height, width)
      modifies this`grid
      ensures Valid() && grid == Swap(old(grid), i, j, k, l)
    {
      grid := Swap(grid, i, j, k, l);
    }

    /** Exchanges the icons at the positions of the first two cells. */
    method SwapCells(cells: seq<Cell>)
      requires Valid() && |cells| >= 2 && InGrid(cells[0], width, height) && InGrid(cells[1], width, height)
      modifies this`grid
      ensures Valid() && grid == Swap(old(grid), cells[0].row, cells[0].col, cells[1].row, cells[1].col)
    {
      SwapIcons(cells[0].row, cells[0].col, cells[1].row, cells[1].col);
    }

    /**
      A move: allowed only for two adjacent in-grid cells with different
      icons, and made only if the swap creates a run. A made move leaves the
      two icons exchanged; a refused one leaves the grid exactly as it was.
      The score never changes.
     */
    method Select(cells: seq<Cell>) returns (valid: bool)
      requires Valid()
      modifies this`grid, this`score
      ensures Valid() && score == old(score)
      ensures valid <==> MoveAllowed(cells, width, height) && HasRun(SwapOf(old(grid), width, cells), width)
      ensures grid == if valid then SwapOf(old(grid), width, cells) else old(grid)
    {
      if MoveAllowed(cells, width, height) {
        SwapCells(cells);
        valid := true;
        var runs := FindRuns(false);
        if |runs| == 0 {
          SwapSelfInverse(old(grid), cells[0].row, cells[0].col, cells[1].row, cells[1].col);
          SwapCells(cells);
          valid := false;
        }
      } else {
        valid := false;
      }
    }

    /**
      Every position that lies in a horizontal or vertical run, with its
      icon. With mark false nothing changes; with mark true every such
      position is emptied and each maximal run of length k adds
      BaseScore * 2^(k - 3) to the score.
     */
    method FindRuns(mark: bool) returns (cells: seq<Cell>)
      requires Valid()
      modifies this`grid, this`score
      ensures Valid()
      ensures forall m :: 0 <= m < |cells| ==> IsRunCell(old(grid), width, cells[m])
      ensures forall r, c :: 0 <= r < height && 0 <= c < width && InRun(old(grid), width, r, c) ==>
        Reported(cells, r, c)
      ensures cells == [] <==> !HasRun(old(grid), width)
      ensures grid == if mark then Cleared(old(grid), width) else old(grid)
      ensures score == old(score) + if mark then BoardScore(old(grid), width) else 0
    {
      cells := ScanRuns(grid, width);
      if mark {
        score := score + BoardScore(grid, width);
        EmptyCells(cells);
      }
    }

    /** Empties the position of every cell; the cells are exactly the run positions. */
    method EmptyCells(cells: seq<Cell>)
      requires Valid()
      requires forall m :: 0 <= m < |cells| ==> IsRunCell(grid, width, cells[m])
      requires forall r, c :: 0 <= r < height && 0 <= c < width && InRun(grid, width, r, c) ==>
        Reported(cells, r, c)
      modifies this`grid
      ensures Valid() && grid == Cleared(old(grid), width)
    {
      ghost var g0 := grid;
      assert cells[..0] == [];
      for m := 0 to |cells|
        invariant ClearedUpTo(grid, g0, width, cells, m)
        invariant |grid| == height
      {
        assert IsRunCell(g0, width, cells[m]);
        ClearStep(grid, g0, width, cells, m);
        grid := SetCell(grid, cells[m].row, cells[m].col, None);
      }
      ClearDone(grid, g0, width, cells);
    }

    /**
      Removes the slot at row pos of column col: the rows above move down
      by one and row 0 becomes empty; other columns are untouched.
     */
    method RemoveAndShiftUp(pos: nat, col: nat)
      requires Valid() && pos < height && col < width
      modifies this`grid
      ensures Valid()
      ensures grid == WithColumn(old(grid), col, ShiftedDown(Column(old(grid), col), pos))
    {
      ghost var g0 := grid;
      ghost var c0 := Column(grid, col);
      WithOwnColumn(g0, col);
      ShiftingStart(c0, pos);
      var i := pos;
      while i > 0
        invariant 0 <= i <= pos
        invariant grid == WithColumn(g0, col, Shifting(c0, pos, i))
      {
        ShiftRowStep(g0, col, c0, pos, i, grid);
        grid := SetCell(grid, i, col, grid[i - 1][col]);
        i := i - 1;
      }
      ShiftRowEnd(g0, col, c0, pos, grid);
      grid := SetCell(grid, 0, col, None);
    }

    /**
      Gravity on column col: empty slots go to the top, icons fall and keep
      their order; other columns are untouched. Returns a cell for every
      icon that moved, at its new row, with its old row as previousRow.
     */
    method CollapseColumn(col: nat) returns (moved: seq<Cell>)
      requires Valid() && col < width
      modifies this`grid
      ensures Valid()
      ensures grid == WithColumn(old(grid), col, Collapse(Column(old(grid), col)))
      ensures moved == MovedFrom(Column(old(grid), col), col, 0)
    {
      ghost var g0 := grid;
      moved := [];
      var i: int := height - 1;
      var j: nat := 0;
      CollapseScanCollapses(g0, col);
      while i >= j
        invariant Valid()
        invariant j - 1 <= i < height
        invariant CollapseScan(grid, col, i, j, moved) == CollapseScan(g0, col, height - 1, 0, [])
        decreases i - j
      {
        i, j, moved := CollapseRow(col, i, j, moved);
      }
    }

    /**
      One pass of the collapse loop at row i of column col, j empty slots
      removed so far: an icon stays and is reported when it has fallen;
      an empty slot is removed and the rows above it shift down.
     */
    method CollapseRow(col: nat, i: int, j: nat, moved: seq<Cell>) returns (i': int, j': nat, moved': seq<Cell>)
      requires Valid() && col < width && 0 <= j <= i < height
      modifies this`grid
      ensures Valid() && j' - 1 <= i' < height && i' - j' < i - j
      ensures CollapseScan(grid, col, i', j', moved') == CollapseScan(old(grid), col, i, j, moved)
    {
      i', j', moved' := i, j, moved;
      var icon := grid[i][col];
      if icon.Some? {
        var a := Cell(i, col, icon, i - j);
        if a.row != a.previousRow {
          moved' := moved + [a];
        }
        i' := i - 1;
      } else {
        if i != 0 {
          RemoveAndShiftUp(i, col);
        }
        j' := j + 1;
      }
    }

    /**
      Fills the empty slots of column col from the supply, bottom row
      first; other columns are untouched. Returns a cell for every filled
      position, with previousRow -1.
     */
    method FillColumn(col: nat) returns (added: seq<Cell>)
      requires Valid() && col < width
      modifies this`grid, this`drawn
      ensures Valid()
      ensures grid == WithColumn(old(grid), col, Refill(Column(old(grid), col), supply, old(drawn)))
      ensures drawn == old(drawn) + Nulls(Column(old(grid), col))
      ensures added == FilledFrom(Column(old(grid), col), col, supply, old(drawn), 0)
    {
      ghost var g0 := grid;
      ghost var d := drawn;
      added := [];
      FillScanRefills(g0, col, supply, d);
      for i := height downto 0
        invariant Valid()
        invariant FillScan(grid, col, i, supply, drawn, added) == FillScan(g0, col, height, supply, d, [])
      {
        added := FillRow(col, i, added);
      }
    }

    /**
      One pass of the refill loop at row i of column col: an empty slot
      takes the next icon of the supply and is reported with previousRow -1.
     */
    method FillRow(col: nat, i: nat, added: seq<Cell>) returns (added': seq<Cell>)
      requires Valid() && col < width && i < height
      modifies this`grid, this`drawn
      ensures Valid()
      ensures FillScan(grid, col, i, supply, drawn, added') == FillScan(old(grid), col, i + 1, supply, old(drawn), added)
    {
      added' := added;
      if grid[i][col].None? {
        var t := Generate();
        grid := SetCell(grid, i, col, Some(t));
        added' := added + [Cell(i, col, Some(t), -1)];
      }
      FillScanStep(old(grid), grid, col, i, i + 1, supply, old(drawn), drawn, added, added');
    }

    /**
      One cascade step: clear and score every run; if there was one,
      collapse then refill each column, left to right. Returns the cleared
      cells, then (if any) the moved and the added cells.
     */
    method RemoveAllRuns() returns (report: seq<seq<Cell>>)
      requires Valid()
      modifies this`grid, this`score, this`drawn
      ensures Valid()
      ensures 1 <= |report| && score == old(score) + BoardScore(old(grid), width)
      ensures score > old(score) <==> HasRun(old(grid), width)
      ensures forall m :: 0 <= m < |report[0]| ==> IsRunCell(old(grid), width, report[0][m])
      ensures forall r, c :: 0 <= r < height && 0 <= c < width && InRun(old(grid), width, r, c) ==>
        Reported(report[0], r, c)
      ensures !HasRun(old(grid), width) ==> report == [[]] && grid == old(grid) && drawn == old(drawn)
      ensures HasRun(old(grid), width) ==>
        var cleared := Cleared(old(grid), width);
        |report| == 3 && Full(grid) &&
        grid == Resolved(cleared, width, supply, old(drawn)) &&
        drawn == old(drawn) + DrawsBefore(cleared, width, width) &&
        report[1] == AllMoved(cleared, width, width) &&
        report[2] == AllFilled(cleared, width, supply, old(drawn), width)
    {
      BoardScorePositive(grid, width);
      if !HasRun(grid, width) {
        ClearedWithoutRun(grid, width);
      }
      var rem := FindRuns(true);
      report := [rem];
      if |rem| > 0 {
        var a, b := ResolveColumns();
        report := [rem, a, b];
      }
    }

    /**
      The cascade's column loop: every column, left to right, collapsed
      then refilled; returns the moved and the added cells.
     */
    method ResolveColumns() returns (a: seq<Cell>, b: seq<Cell>)
      requires Valid()
      modifies this`grid, this`drawn
      ensures Valid() && Full(grid)
      ensures grid == Resolved(old(grid), width, supply, old(drawn))
      ensures drawn == old(drawn) + DrawsBefore(old(grid), width, width)
      ensures a == AllMoved(old(grid), width, width)
      ensures b == AllFilled(old(grid), width, supply, old(drawn), width)
    {
      ghost var g1 := grid;
      ghost var d := drawn;
      a := [];
      b := [];
      for i := 0 to width
        invariant Valid()
        invariant grid == PartlyResolved(g1, width, supply, d, i)
        invariant drawn == d + DrawsBefore(g1, width, i)
        invariant a == AllMoved(g1, width, i)
        invariant b == AllFilled(g1, width, supply, d, i)
      {
        a, b := ResolveColumn(i, g1, d, a, b);
      }
      ResolvedFull(g1, width, supply, d);
    }

    /**
      One pass of the cascade's column loop: collapse column i, then
      refill it, appending its moved and added cells to the reports.
     */
    method ResolveColumn(i: nat, ghost g1: Grid, ghost d: nat, a: seq<Cell>, b: seq<Cell>) returns (a': seq<Cell>, b': seq<Cell>)
      requires Valid() && i < width && Rect(g1, width)
      requires grid == PartlyResolved(g1, width, supply, d, i)
      requires drawn == d + DrawsBefore(g1, width, i)
      requires a == AllMoved(g1, width, i) && b == AllFilled(g1, width, supply, d, i)
      modifies this`grid, this`drawn
      ensures Valid()
      ensures grid == PartlyResolved(g1, width, supply, d, i + 1)
      ensures drawn == d + DrawsBefore(g1, width, i + 1)
      ensures a' == AllMoved(g1, width, i + 1) && b' == AllFilled(g1, width, supply, d, i + 1)
    {
      ghost var g2 := grid;
      var moved := CollapseColumn(i);
      ghost var g3 := grid;
      ghost var d3 := drawn;
      var added := FillColumn(i);
      SettleGrid(g1, width, supply, d, i, g2, g3, grid, d3);
      SettleDraws(g1, width, supply, d, i, g2, g3, d3, drawn);
      SettleMoved(g1, width, supply, d, i, g2, moved, a);
      SettleFilled(g1, width, supply, d, i, g2, g3, d3, added, b);
      a' := a + moved;
      b' := b + added;
    }

    /**
      The construction loop's test `findRuns(False)`: the run cells, empty
      exactly when the board has no run; nothing changes.
     */
    method PendingRuns() returns (runs: seq<Cell>)
      requires Valid()
      modifies this`grid, this`score
      ensures Valid() && grid == old(grid) && score == old(score)
      ensures runs == [] <==> !HasRun(grid, width)
    {
      runs := FindRuns(false);
    }

    /** One pass of the construction loop on a board with a run: removeAllRuns, its report dropped. */
    method PlayRound()
      requires Valid() && HasRun(grid, width)
      modifies this`grid, this`score, this`drawn
      ensures Valid() && (grid, drawn) == Round(old(grid), width, supply, old(drawn))
    {
      ghost var g0, d0 := grid, drawn;
      var report := RemoveAllRuns();
      RoundParts(g0, width, supply, d0, grid, drawn);
    }

    /**
      One pass of the construction loop with fuel f: a round, then the
      read-only run scan of the new grid.
     */
    method SettleStep(f: nat) returns (runs: seq<Cell>)
      requires Valid() && HasRun(grid, width) && f > 0
      modifies this`grid, this`score, this`drawn
      ensures Valid() && Full(grid)
      ensures runs == [] <==> !HasRun(grid, width)
      ensures Cascade(grid, width, supply, drawn, f - 1) == Cascade(old(grid), width, supply, old(drawn), f)
    {
      ghost var g0, d0 := grid, drawn;
      PlayRound();
      CascadeStep(g0, width, supply, d0, f, (grid, drawn));
      runs := PendingRuns();
    }

    /**
      The construction-time stabilisation: cascade while the board has a
      run, at most fuel times, then reset the score. settled reports that
      no run is left.
     */
    method Settle(fuel: nat) returns (settled: bool)
      requires Valid()
      modifies this`grid, this`score, this`drawn
      ensures Valid() && score == 0
      ensures (grid, drawn) == Cascade(old(grid), width, supply, old(drawn), fuel)
      ensures settled <==> !HasRun(grid, width)
      ensures Full(old(grid)) ==> Full(grid)
    {
      var runs := PendingRuns();
      var f := fuel;
      while |runs| > 0 && f > 0
        invariant Valid()
        invariant runs == [] <==> !HasRun(grid, width)
        invariant Cascade(grid, width, supply, drawn, f) == Cascade(old(grid), width, supply, old(drawn), fuel)
        decreases f
      {
        runs := SettleStep(f);
        f := f - 1;
      }
      CascadeStops(grid, width, supply, drawn, f);
      if Full(old(grid)) {
        CascadeFull(old(grid), width, supply, old(drawn), fuel);
      }
      settled := |runs| == 0;
      score := 0;
    }
  }
}
