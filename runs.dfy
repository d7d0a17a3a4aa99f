/**
  Runs: three or more adjacent positions, along a row or a column, holding
  icons of one type. Detection (which positions lie in a run), clearing
  (emptying those positions) and scoring (points per maximal run).
 */
module Runs {
  import opened Board

  /** Score awarded for a three-icon run. */
  const BaseScore: nat := 10

  function Pow2(n: nat): (p: nat)
    ensures p >= 1
  {
    if n == 0 then 1 else 2 * Pow2(n - 1)
  }

  /** Points for one run of length k: BaseScore for three, doubled for each icon beyond three. */
  function RunScore(k: nat): (s: nat)
    requires k >= 3
    ensures s >= BaseScore
  {
    BaseScore * Pow2(k - 3)
  }

  /** Each icon beyond the third doubles a run's score. */
  lemma {:induction false} RunScoreDoubles(k: nat)
    requires k >= 3
    ensures RunScore(3) == BaseScore
    ensures RunScore(k + 1) == 2 * RunScore(k)
  {
  }

  // ---------------------------------------------------------------------
  // Detection along one line (a row, or a column read top to bottom)
  // ---------------------------------------------------------------------

  /** Positions s, s + 1 and s + 2 of the line hold icons of one type. */
  predicate TripleAt(line: seq<Slot>, s: int)
  {
    0 <= s && s + 2 < |line| && line[s].Some? && line[s] == line[s + 1] && line[s + 1] == line[s + 2]
  }

  /**
    Position k lies in a run of three or more: some three consecutive equal
    icons cover it (a longer run is covered by its windows of three).
   */
  predicate InLineRun(line: seq<Slot>, k: int)
  {
    TripleAt(line, k - 2) || TripleAt(line, k - 1) || TripleAt(line, k)
  }

  /**
    The length of the maximal block of equal slots that starts at i and
    extends to the right.
   */
  function SegLen(line: seq<Slot>, i: nat): (k: nat)
    requires i < |line|
    ensures 1 <= k <= |line| - i
    ensures forall m :: i <= m < i + k ==> line[m] == line[i]
    ensures i + k == |line| || line[i + k] != line[i]
    decreases |line| - i
  {
    if i + 1 < |line| && line[i + 1] == line[i] then 1 + SegLen(line, i + 1) else 1
  }

  /** A block starts at i: i is the first position, or its left neighbour differs. */
  predicate BlockStart(line: seq<Slot>, i: nat)
    requires i < |line|
  {
    i == 0 || line[i - 1] != line[i]
  }

  /**
    A triple that starts inside the block beginning at i lies wholly inside
    that block.
   */
  lemma {:induction false} TripleInsideBlock(line: seq<Slot>, i: nat, s: nat)
    requires i < |line| && i <= s < i + SegLen(line, i)
    requires TripleAt(line, s)
    ensures s + 2 < i + SegLen(line, i)
    ensures line[i] == line[s]
  {
    var k := SegLen(line, i);
    assert line[s] == line[i];
  }

  /**
    The two readings of "in a run" agree: a position is covered by a triple
    exactly when the maximal block holding it is a run (icons, length >= 3).
   */
  lemma {:induction false} InLineRunIffBlockIsRun(line: seq<Slot>, i: nat, k: nat)
    requires i < |line| && BlockStart(line, i)
    requires i <= k < i + SegLen(line, i)
    ensures InLineRun(line, k) <==> line[i].Some? && SegLen(line, i) >= 3
  {
    var len := SegLen(line, i);
    if line[i].Some? && len >= 3 {
      var s := if k + 2 < i + len then k else if k >= i + 2 then k - 2 else i + len - 3;
      assert line[s] == line[i] && line[s + 1] == line[i] && line[s + 2] == line[i];
      assert TripleAt(line, s);
    }
    forall s | s in {k - 2, k - 1, k} && TripleAt(line, s)
      ensures line[i].Some? && len >= 3
    {
      assert i <= s by {
        assert i == 0 || line[i - 1] != line[i];
      }
      TripleInsideBlock(line, i, s);
    }
  }

  // ---------------------------------------------------------------------
  // Scoring along one line
  // ---------------------------------------------------------------------

  /** Points for the maximal runs of line that start at or after i. */
  function LineScoreFrom(line: seq<Slot>, i: nat): nat
    requires i <= |line|
    decreases |line| - i
  {
    if i == |line| then 0
    else
      var k := SegLen(line, i);
      (if line[i].Some? && k >= 3 then RunScore(k) else 0) + LineScoreFrom(line, i + k)
  }

  /** Points for every maximal run of a line. */
  function LineScore(line: seq<Slot>): nat
  {
    LineScoreFrom(line, 0)
  }

  /** A line earns points exactly when it holds a triple. */
  lemma {:induction false} LineScorePositive(line: seq<Slot>, i: nat)
    requires i <= |line|
    ensures LineScoreFrom(line, i) > 0 <==> exists s :: i <= s && TripleAt(line, s)
    decreases |line| - i
  {
    if i < |line| {
      var k := SegLen(line, i);
      LineScorePositive(line, i + k);
      if line[i].Some? && k >= 3 {
        assert TripleAt(line, i);
      }
      forall s | i <= s < i + k && TripleAt(line, s)
        ensures line[i].Some? && k >= 3
      {
        TripleInsideBlock(line, i, s);
      }
    }
  }

  // ---------------------------------------------------------------------
  // The whole grid
  // ---------------------------------------------------------------------

  /** Position (r, c) lies in a horizontal or a vertical run. */
  predicate InRun(g: Grid, w: nat, r: nat, c: nat)
    requires Rect(g, w) && r < |g| && c < w
  {
    InLineRun(g[r], c) || InLineRun(Column(g, c), r)
  }

  /** Some position of the grid lies in a run. */
  predicate HasRun(g: Grid, w: nat)
    requires Rect(g, w)
  {
    exists r, c :: 0 <= r < |g| && 0 <= c < w && InRun(g, w, r, c)
  }

  /** Some cell of the list reports position (r, c). */
  predicate Reported(cells: seq<Cell>, r: int, c: int)
  {
    exists m :: 0 <= m < |cells| && cells[m].row == r && cells[m].col == c
  }

  /** Reporting one more cell adds exactly its position. */
  lemma {:induction false} ReportedExtend(cells: seq<Cell>, m: nat, r: int, c: int)
    requires m < |cells|
    ensures Reported(cells[..m + 1], r, c) <==>
      Reported(cells[..m], r, c) || (cells[m].row == r && cells[m].col == c)
  {
    if Reported(cells[..m], r, c) {
      var k :| 0 <= k < m && cells[..m][k].row == r && cells[..m][k].col == c;
      assert cells[..m + 1][k] == cells[..m][k];
    }
    if Reported(cells[..m + 1], r, c) && !(cells[m].row == r && cells[m].col == c) {
      var k :| 0 <= k < m + 1 && cells[..m + 1][k].row == r && cells[..m + 1][k].col == c;
      assert cells[..m][k] == cells[..m + 1][k];
    }
    if cells[m].row == r && cells[m].col == c {
      assert cells[..m + 1][m] == cells[m];
    }
  }

  /** The cell names a run position of g and carries the icon found there. */
  predicate IsRunCell(g: Grid, w: nat, x: Cell)
    requires Rect(g, w)
  {
    Within(x.row, x.col, |g|, w) && InRun(g, w, x.row, x.col) &&
    x.icon == g[x.row][x.col] && x.previousRow == x.row
  }

  /**
    The read-only run scan: every position that lies in a horizontal or a
    vertical run, once, in row-major order, each with its icon.
   */
  method ScanRuns(g: Grid, w: nat) returns (cells: seq<Cell>)
    requires Rect(g, w)
    ensures forall m :: 0 <= m < |cells| ==> IsRunCell(g, w, cells[m])
    ensures forall r, c :: 0 <= r < |g| && 0 <= c < w && InRun(g, w, r, c) ==> Reported(cells, r, c)
    ensures cells == [] <==> !HasRun(g, w)
  {
    cells := [];
    for r := 0 to |g|
      invariant forall m :: 0 <= m < |cells| ==> IsRunCell(g, w, cells[m])
      invariant forall r', c' :: 0 <= r' < r && 0 <= c' < w && InRun(g, w, r', c') ==> Reported(cells, r', c')
    {
      for c := 0 to w
        invariant forall m :: 0 <= m < |cells| ==> IsRunCell(g, w, cells[m])
        invariant forall r', c' :: 0 <= r' < r && 0 <= c' < w && InRun(g, w, r', c') ==> Reported(cells, r', c')
        invariant forall c' :: 0 <= c' < c && InRun(g, w, r, c') ==> Reported(cells, r, c')
      {
        if InRun(g, w, r, c) {
          var x := Cell(r, c, g[r][c], r);
          forall r', c' | Reported(cells, r', c')
            ensures Reported(cells + [x], r', c')
          {
            var m :| 0 <= m < |cells| && cells[m].row == r' && cells[m].col == c';
            assert (cells + [x])[m] == cells[m];
          }
          assert (cells + [x])[|cells|] == x;
          cells := cells + [x];
        }
      }
    }
    if cells != [] {
      assert IsRunCell(g, w, cells[0]);
    }
  }

  /** g with every position that lies in a run emptied; the rest is kept. */
  function Cleared(g: Grid, w: nat): (g': Grid)
    requires Rect(g, w)
    ensures |g'| == |g| && Rect(g', w)
    ensures forall r, c :: 0 <= r < |g| && 0 <= c < w ==>
      g'[r][c] == if InRun(g, w, r, c) then None else g[r][c]
  {
    seq(|g|, r requires 0 <= r < |g| =>
      seq(w, c requires 0 <= c < w => if InRun(g, w, r, c) then None else g[r][c]))
  }

  /** g is g0 with the positions named by cells[..m] emptied. */
  predicate ClearedUpTo(g: Grid, g0: Grid, w: nat, cells: seq<Cell>, m: nat)
    requires m <= |cells|
  {
    |g| == |g0| && Rect(g, w) && Rect(g0, w) &&
    forall r, c :: 0 <= r < |g0| && 0 <= c < w ==>
      g[r][c] == if Reported(cells[..m], r, c) then None else g0[r][c]
  }

  /** Emptying the position of cells[m] extends the emptied prefix by one cell. */
  lemma {:induction false} ClearStep(g: Grid, g0: Grid, w: nat, cells: seq<Cell>, m: nat)
    requires m < |cells| && ClearedUpTo(g, g0, w, cells, m)
    requires Within(cells[m].row, cells[m].col, |g|, w)
    ensures ClearedUpTo(SetCell(g, cells[m].row, cells[m].col, None), g0, w, cells, m + 1)
  {
    var g' := SetCell(g, cells[m].row, cells[m].col, None);
    forall r, c | 0 <= r < |g0| && 0 <= c < w
      ensures g'[r][c] == if Reported(cells[..m + 1], r, c) then None else g0[r][c]
    {
      ReportedExtend(cells, m, r, c);
    }
  }

  /** Emptying exactly the reported run positions is clearing the grid. */
  lemma {:induction false} ClearDone(g: Grid, g0: Grid, w: nat, cells: seq<Cell>)
    requires Rect(g0, w) && ClearedUpTo(g, g0, w, cells, |cells|)
    requires forall m :: 0 <= m < |cells| ==> IsRunCell(g0, w, cells[m])
    requires forall r, c :: 0 <= r < |g0| && 0 <= c < w && InRun(g0, w, r, c) ==> Reported(cells, r, c)
    ensures g == Cleared(g0, w)
  {
    assert cells[..|cells|] == cells;
    forall r | 0 <= r < |g0|
      ensures g[r] == Cleared(g0, w)[r]
    {
      forall c | 0 <= c < w
        ensures g[r][c] == Cleared(g0, w)[r][c]
      {
        if Reported(cells, r, c) {
          var k :| 0 <= k < |cells| && cells[k].row == r && cells[k].col == c;
          assert IsRunCell(g0, w, cells[k]);
        }
      }
    }
  }

  /** Clearing is complete: no run survives in the cleared grid. */
  lemma {:induction false} ClearedHasNoRun(g: Grid, w: nat)
    requires Rect(g, w)
    ensures !HasRun(Cleared(g, w), w)
  {
    var g' := Cleared(g, w);
    forall r, s | 0 <= r < |g| && 0 <= s < w
      ensures !TripleAt(g'[r], s)
      ensures !TripleAt(Column(g', s), r)
    {
      // an icon left in place was not in a run, so it is the original icon
      assert TripleAt(g'[r], s) ==> TripleAt(g[r], s);
      assert TripleAt(g[r], s) ==> InLineRun(g[r], s) && g'[r][s] == None;
      assert TripleAt(Column(g', s), r) ==> TripleAt(Column(g, s), r);
      assert TripleAt(Column(g, s), r) ==> InLineRun(Column(g, s), r) && g'[r][s] == None;
    }
  }

  /** Clearing a grid without runs changes nothing. */
  lemma {:induction false} ClearedWithoutRun(g: Grid, w: nat)
    requires Rect(g, w) && !HasRun(g, w)
    ensures Cleared(g, w) == g
  {
    var g' := Cleared(g, w);
    forall r | 0 <= r < |g|
      ensures g'[r] == g[r]
    {
      assert forall c :: 0 <= c < w ==> g'[r][c] == g[r][c];
    }
  }

  /** Points for rows 0 .. n - 1. */
  function RowsScore(g: Grid, n: nat): nat
    requires n <= |g|
  {
    if n == 0 then 0 else RowsScore(g, n - 1) + LineScore(g[n - 1])
  }

  /** Points for columns 0 .. n - 1. */
  function ColumnsScore(g: Grid, w: nat, n: nat): nat
    requires Rect(g, w) && n <= w
  {
    if n == 0 then 0 else ColumnsScore(g, w, n - 1) + LineScore(Column(g, n - 1))
  }

  /**
    The points one mark-and-score pass awards: every maximal row run and
    every maximal column run, each counted on its own.
   */
  function BoardScore(g: Grid, w: nat): nat
    requires Rect(g, w)
  {
    RowsScore(g, |g|) + ColumnsScore(g, w, w)
  }

  lemma {:induction false} RowsScorePositive(g: Grid, n: nat)
    requires n <= |g|
    ensures RowsScore(g, n) > 0 <==> exists r :: 0 <= r < n && LineScore(g[r]) > 0
  {
    if n > 0 {
      RowsScorePositive(g, n - 1);
    }
  }

  lemma {:induction false} ColumnsScorePositive(g: Grid, w: nat, n: nat)
    requires Rect(g, w) && n <= w
    ensures ColumnsScore(g, w, n) > 0 <==> exists c :: 0 <= c < n && LineScore(Column(g, c)) > 0
  {
    if n > 0 {
      ColumnsScorePositive(g, w, n - 1);
    }
  }

  /** A mark-and-score pass earns points exactly when the grid has a run. */
  lemma {:induction false} BoardScorePositive(g: Grid, w: nat)
    requires Rect(g, w)
    ensures BoardScore(g, w) > 0 <==> HasRun(g, w)
  {
    if HasRun(g, w) {
      RunEarnsPoints(g, w);
    }
    if BoardScore(g, w) > 0 {
      PointsNeedRun(g, w);
    }
  }

  /** A grid with a run earns points. */
  lemma {:induction false} RunEarnsPoints(g: Grid, w: nat)
    requires Rect(g, w) && HasRun(g, w)
    ensures BoardScore(g, w) > 0
  {
    RowsScorePositive(g, |g|);
    ColumnsScorePositive(g, w, w);
    var r, c :| 0 <= r < |g| && 0 <= c < w && InRun(g, w, r, c);
    if InLineRun(g[r], c) {
      LineScorePositive(g[r], 0);
    } else {
      LineScorePositive(Column(g, c), 0);
    }
  }

  /** Points are earned only from a run. */
  lemma {:induction false} PointsNeedRun(g: Grid, w: nat)
    requires Rect(g, w) && BoardScore(g, w) > 0
    ensures HasRun(g, w)
  {
    RowsScorePositive(g, |g|);
    ColumnsScorePositive(g, w, w);
    if RowsScore(g, |g|) > 0 {
      var r :| 0 <= r < |g| && LineScore(g[r]) > 0;
      LineScorePositive(g[r], 0);
      var s :| 0 <= s && TripleAt(g[r], s);
      assert InRun(g, w, r, s);
    } else {
      var c :| 0 <= c < w && LineScore(Column(g, c)) > 0;
      LineScorePositive(Column(g, c), 0);
      var s :| 0 <= s && TripleAt(Column(g, c), s);
      assert InRun(g, w, s, c);
    }
  }
}
