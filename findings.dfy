/**
  Six places of the board engine as they are written, each with an input
  that shows how it departs from what its documentation promises. The
  rest of the model uses the corrected definitions: Game.FindRuns,
  Game.Select (through MoveAllowed), Game.SetIcon, ShiftedDown,
  CollapseScan and Refill.
 */
module AsWritten {
  import opened Board
  import opened Runs
  import opened Gravity
  import GameImpl

  /** findRuns as written: an empty list, and neither grid nor score change. */
  function FindRunsAsWritten(g: Grid, score: nat, mark: bool): (seq<Cell>, Grid, nat)
  {
    ([], g, score)
  }

  /**
    A row of three equal icons is a run, yet the written-out findRuns
    reports nothing and, asked to mark, clears and scores nothing.
   */
  lemma {:induction false} FindRunsAsWrittenMissesRun()
    ensures HasRun([[Some(0), Some(0), Some(0)]], 3)
    ensures BoardScore([[Some(0), Some(0), Some(0)]], 3) > 0
    ensures FindRunsAsWritten([[Some(0), Some(0), Some(0)]], 0, true) == ([], [[Some(0), Some(0), Some(0)]], 0)
  {
    var g: Grid := [[Some(0), Some(0), Some(0)]];
    assert TripleAt(g[0], 0);
    assert InRun(g, 3, 0, 0);
    BoardScorePositive(g, 3);
  }

  /**
    select's guard as written: the icon test negates the first icon (an
    object, so always true) and compares the boolean False with the second
    icon; that comparison is NotImplemented, which counts as true. The test
    therefore passes whatever the two icons are.
   */
  predicate MoveAllowedAsWritten(cells: seq<Cell>, w: nat, h: nat)
  {
    |cells| == 2 && Adjacent(cells[0], cells[1]) &&
    InGrid(cells[0], w, h) && InGrid(cells[1], w, h)
  }

  /**
    Two adjacent cells holding the same icon pass the written-out guard,
    where the documented rule (different icon types) refuses them.
   */
  lemma {:induction false} SelectAsWrittenAllowsSameIcon(icon: Slot)
    ensures MoveAllowedAsWritten([Cell(0, 0, icon, 0), Cell(0, 1, icon, 0)], 2, 1)
    ensures !GameImpl.MoveAllowed([Cell(0, 0, icon, 0), Cell(0, 1, icon, 0)], 2, 1)
  {
  }

  /** setIcon as written: it reads the position and returns it; the grid is unchanged. */
  function SetIconAsWritten(g: Grid, row: nat, col: nat, icon: Slot): (Grid, Slot)
    requires row < |g| && col < |g[row]|
  {
    (g, g[row][col])
  }

  /**
    Whenever the icon differs from the one in place, the written-out
    setIcon does not store it, where the corrected write does.
   */
  lemma {:induction false} SetIconNeverWrites(g: Grid, row: nat, col: nat, icon: Slot)
    requires row < |g| && col < |g[row]| && icon != g[row][col]
    ensures SetIconAsWritten(g, row, col, icon).0[row][col] != icon
    ensures SetCell(g, row, col, icon)[row][col] == icon
  {
  }

  /**
    removeAndShiftUp's shift as written, with a storing setIcon: rows pos
    down to 2 take the row above them (the range stops before row 1),
    then row 0 is emptied.
   */
  function ShiftedDownAsWritten(s: seq<Slot>, pos: nat): (r: seq<Slot>)
    requires pos < |s|
    ensures |r| == |s|
  {
    seq(|s|, k requires 0 <= k < |s| => if k == 0 then None else if 2 <= k <= pos then s[k - 1] else s[k])
  }

  /**
    For any removal below row 0 the written-out shift leaves row 1 alone,
    so the icon of row 0 disappears: on column [1, 2, empty] at row 2 it
    gives [empty, 2, 2] where the removal gives [empty, 1, 2].
   */
  lemma {:induction false} RemoveAsWrittenLosesIcon(s: seq<Slot>, pos: nat)
    requires 1 <= pos < |s|
    ensures ShiftedDownAsWritten(s, pos)[1] == s[1]
    ensures ShiftedDown(s, pos)[1] == s[0]
    ensures ShiftedDownAsWritten([Some(1), Some(2), None], 2) == [None, Some(2), Some(2)]
    ensures ShiftedDown([Some(1), Some(2), None], 2) == [None, Some(1), Some(2)]
  {
    ShiftedDownRemoves(s, pos);
    var t: seq<Slot> := [Some(1), Some(2), None];
    assert ShiftedDownAsWritten(t, 2)[2] == Some(2);
    assert ShiftedDown(t, 2) == [None] + [Some(1), Some(2)] + [];
  }

  /**
    One pass of collapseColumn's loop as written (with the removal
    corrected): an icon moves the scan up; an empty slot is removed, but
    the counter j only grows under `if Cell is None`, which tests the
    class and never holds.
   */
  function CollapsePassAsWritten(col: seq<Slot>, i: nat, j: nat): (seq<Slot>, int, nat)
    requires i < |col|
  {
    if col[i].Some? then (col, i - 1, j)
    else (if i != 0 then ShiftedDown(col, i) else col, i, j)
  }

  /**
    Once every slot from the top to row i is empty, a pass as written
    changes nothing while the loop guard i >= j still holds: the loop
    never ends. A one-row column holding an empty slot is already there.
   */
  lemma {:induction false} CollapseAsWrittenSpins(col: seq<Slot>, i: nat, j: nat)
    requires j <= i < |col| && forall k :: 0 <= k <= i ==> col[k].None?
    ensures CollapsePassAsWritten(col, i, j) == (col, i, j)
  {
    if i != 0 {
      ShiftedDownRemoves(col, i);
      assert ShiftedDown(col, i) == col;
    }
  }

  /** fillColumn's refill as written: the range stops before row 0. */
  function RefillAsWritten(col: seq<Slot>, supply: nat -> IconType, d: nat): (r: seq<Slot>)
    ensures |r| == |col|
  {
    seq(|col|, k requires 0 <= k < |col| =>
      if k >= 1 && col[k].None? then Some(supply(d + Nulls(col[k + 1..]))) else col[k])
  }

  /**
    An empty top slot, which every collapse of a column with a cleared
    position leaves, stays empty after the refill as written, where the
    corrected refill fills it.
   */
  lemma {:induction false} RefillAsWrittenLeavesTop(col: seq<Slot>, supply: nat -> IconType, d: nat)
    requires 0 < |col| && col[0].None?
    ensures RefillAsWritten(col, supply, d)[0] == None
    ensures Refill(col, supply, d)[0].Some?
  {
  }
}
