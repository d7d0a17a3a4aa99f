/**
  Gravity and refill for one column, read top to bottom: empty slots rise
  to the top while icons fall and keep their order; then every empty slot
  takes a new icon from the supply. Also the lists of cells that report
  which icons moved and which were added.
 */
module Gravity {
  import opened Board

  /** The number of empty slots in s. */
  function Nulls(s: seq<Slot>): (n: nat)
    ensures n <= |s|
  {
    if s == [] then 0 else (if s[0].None? then 1 else 0) + Nulls(s[1..])
  }

  /** The icons of s, in their order, without the empty slots. */
  function Present(s: seq<Slot>): (p: seq<Slot>)
    ensures |p| + Nulls(s) == |s|
    ensures forall m :: 0 <= m < |p| ==> p[m].Some?
  {
    if s == [] then [] else (if s[0].Some? then [s[0]] else []) + Present(s[1..])
  }

  function Nones(n: nat): (s: seq<Slot>)
    ensures |s| == n && forall m :: 0 <= m < n ==> s[m] == None
  {
    if n == 0 then [] else [None] + Nones(n - 1)
  }

  /**
    A column after gravity: the empty slots on top, the icons below them in
    their original top-to-bottom order.
   */
  function Collapse(col: seq<Slot>): (r: seq<Slot>)
    ensures |r| == |col|
    ensures forall m :: 0 <= m < Nulls(col) ==> r[m] == None
    ensures forall m :: Nulls(col) <= m < |col| ==> r[m].Some?
  {
    Nones(Nulls(col)) + Present(col)
  }

  lemma {:induction false} NullsAppend(a: seq<Slot>, b: seq<Slot>)
    ensures Nulls(a + b) == Nulls(a) + Nulls(b)
  {
    if a != [] {
      assert (a + b)[0] == a[0] && (a + b)[1..] == a[1..] + b;
      NullsAppend(a[1..], b);
    } else {
      assert a + b == b;
    }
  }

  lemma {:induction false} PresentAppend(a: seq<Slot>, b: seq<Slot>)
    ensures Present(a + b) == Present(a) + Present(b)
  {
    if a != [] {
      assert (a + b)[0] == a[0] && (a + b)[1..] == a[1..] + b;
      PresentAppend(a[1..], b);
    } else {
      assert a + b == b;
    }
  }

  /** A sequence of icons only is its own list of icons. */
  lemma {:induction false} PresentOfIcons(s: seq<Slot>)
    requires forall m :: 0 <= m < |s| ==> s[m].Some?
    ensures Present(s) == s && Nulls(s) == 0
  {
    if s != [] {
      PresentOfIcons(s[1..]);
    }
  }

  lemma {:induction false} PresentOfNones(n: nat)
    ensures Present(Nones(n)) == [] && Nulls(Nones(n)) == n
  {
    if n > 0 {
      assert Nones(n)[1..] == Nones(n - 1);
      PresentOfNones(n - 1);
    }
  }

  /**
    Gravity keeps the icons: the same icons in the same top-to-bottom
    order and the same number of empty slots (so the column's slots are
    only rearranged); and collapsing twice is collapsing once.
   */
  lemma {:induction false} CollapseKeepsIcons(col: seq<Slot>)
    ensures Present(Collapse(col)) == Present(col)
    ensures Nulls(Collapse(col)) == Nulls(col)
    ensures Collapse(Collapse(col)) == Collapse(col)
  {
    PresentAppend(Nones(Nulls(col)), Present(col));
    NullsAppend(Nones(Nulls(col)), Present(col));
    PresentOfNones(Nulls(col));
    PresentOfIcons(Present(col));
  }

  /** Counting from row p is counting row p, then the rows below it. */
  lemma {:induction false} SuffixStep(s: seq<Slot>, p: nat, i: nat)
    requires i == p + 1 && i <= |s|
    ensures Nulls(s[p..]) == (if s[p].None? then 1 else 0) + Nulls(s[i..])
    ensures Present(s[p..]) == (if s[p].Some? then [s[p]] else []) + Present(s[i..])
  {
    assert s[p..][0] == s[p] && s[p..][1..] == s[i..];
  }

  /**
    Column s with the slot at row pos removed: the rows above pos move down
    by one and an empty slot enters at the top.
   */
  function ShiftedDown(s: seq<Slot>, pos: nat): (r: seq<Slot>)
    requires pos < |s|
    ensures |r| == |s|
  {
    [None] + s[..pos] + s[pos + 1..]
  }

  /**
    Removing row pos: row 0 becomes empty, each row above pos takes the
    slot of the row over it, the rows below pos are kept, and the icons
    are those of s, in order, without the slot at pos.
   */
  lemma {:induction false} ShiftedDownRemoves(s: seq<Slot>, pos: nat)
    requires pos < |s|
    ensures var r := ShiftedDown(s, pos);
      r[0] == None &&
      (forall k :: 1 <= k <= pos ==> r[k] == s[k - 1]) &&
      (forall k :: pos < k < |s| ==> r[k] == s[k]) &&
      Present(r) == Present(s[..pos] + s[pos + 1..])
  {
    var t := s[..pos] + s[pos + 1..];
    var r := ShiftedDown(s, pos);
    assert r == [None] + t;
    assert r[1..] == t;
  }

  /**
    The column while row pos is being removed, once rows i + 1 to pos have
    taken the slot of the row above them: row i is still in place, and so
    is every row above it.
   */
  function Shifting(s: seq<Slot>, pos: nat, i: nat): (r: seq<Slot>)
    requires i <= pos < |s|
    ensures |r| == |s|
  {
    s[..i + 1] + s[i..pos] + s[pos + 1..]
  }

  /** Nothing has moved yet at the start of the removal of row pos. */
  lemma {:induction false} ShiftingStart(s: seq<Slot>, pos: nat)
    requires pos < |s|
    ensures Shifting(s, pos, pos) == s
  {
    assert s[pos..pos] == [];
    assert s == s[..pos + 1] + s[pos + 1..];
  }

  /** Copying row i - 1 into row i moves the removal one row up. */
  lemma {:induction false} ShiftingStep(s: seq<Slot>, pos: nat, i: nat)
    requires 0 < i <= pos < |s|
    ensures Shifting(s, pos, i)[i - 1] == s[i - 1]
    ensures Shifting(s, pos, i)[i := s[i - 1]] == Shifting(s, pos, i - 1)
  {
    var x := Shifting(s, pos, i);
    var y := Shifting(s, pos, i - 1);
    forall k | 0 <= k < |s|
      ensures x[i := s[i - 1]][k] == y[k]
    {
      if k < i {
      } else if k <= pos {
      } else {
      }
    }
  }

  /** Emptying row 0 once every row up to pos has moved ends the removal. */
  lemma {:induction false} ShiftingEnd(s: seq<Slot>, pos: nat)
    requires pos < |s|
    ensures Shifting(s, pos, 0)[0 := None] == ShiftedDown(s, pos)
  {
    var x := Shifting(s, pos, 0)[0 := None];
    forall k | 0 <= k < |s|
      ensures x[k] == ShiftedDown(s, pos)[k]
    {
    }
  }

  /** One pass of the removal loop on column c of a grid, stated on whole grids. */
  lemma {:induction false} ShiftRowStep(g0: Grid, c: nat, s: seq<Slot>, pos: nat, i: nat, g: Grid)
    requires forall r :: 0 <= r < |g0| ==> c < |g0[r]|
    requires |s| == |g0| && 0 < i <= pos < |s|
    requires g == WithColumn(g0, c, Shifting(s, pos, i))
    ensures i < |g| && c < |g[i]| && c < |g[i - 1]|
    ensures SetCell(g, i, c, g[i - 1][c]) == WithColumn(g0, c, Shifting(s, pos, i - 1))
  {
    ShiftingStep(s, pos, i);
    SetCellInColumn(g0, c, Shifting(s, pos, i), i, s[i - 1]);
  }

  /** The last write of the removal loop, stated on whole grids. */
  lemma {:induction false} ShiftRowEnd(g0: Grid, c: nat, s: seq<Slot>, pos: nat, g: Grid)
    requires forall r :: 0 <= r < |g0| ==> c < |g0[r]|
    requires |s| == |g0| && pos < |s|
    requires g == WithColumn(g0, c, Shifting(s, pos, 0))
    ensures 0 < |g| && c < |g[0]|
    ensures SetCell(g, 0, c, None) == WithColumn(g0, c, ShiftedDown(s, pos))
  {
    ShiftingEnd(s, pos);
    SetCellInColumn(g0, c, Shifting(s, pos, 0), 0, None);
  }

  /** The icon at row p falls by the number of empty slots below it. */
  lemma {:induction false} LandingRow(col: seq<Slot>, p: nat)
    requires p < |col| && col[p].Some?
    ensures p + Nulls(col[p + 1..]) < |col|
    ensures Collapse(col)[p + Nulls(col[p + 1..])] == col[p]
  {
    assert col == col[..p] + [col[p]] + col[p + 1..];
    PresentAppend(col[..p] + [col[p]], col[p + 1..]);
    PresentAppend(col[..p], [col[p]]);
    NullsAppend(col[..p] + [col[p]], col[p + 1..]);
    NullsAppend(col[..p], [col[p]]);
    assert Present([col[p]]) == [col[p]];
    assert Nulls([col[p]]) == 0;
    var before := Present(col[..p]);
    assert Present(col) == before + [col[p]] + Present(col[p + 1..]);
    assert Present(col)[|before|] == col[p];
  }

  /** The icon at row p moves: it is an icon with an empty slot somewhere below it. */
  predicate Moves(col: seq<Slot>, p: nat)
    requires p < |col|
  {
    col[p].Some? && Nulls(col[p + 1..]) > 0
  }

  /**
    The cells that collapsing col (column c of the grid) reports for rows
    p and below, bottom first: each moved icon at its new row, with its old
    row as previousRow.
   */
  function MovedFrom(col: seq<Slot>, c: nat, p: nat): seq<Cell>
    requires p <= |col|
    decreases |col| - p
  {
    if p == |col| then []
    else
      MovedFrom(col, c, p + 1) +
      (if Moves(col, p) then [Cell(p + Nulls(col[p + 1..]), c, col[p], p)] else [])
  }

  /**
    The report of a collapse is exact: it lists every icon that moved,
    once, and no other, each at the row where it lands (below its previous
    row) and carrying the icon that was there.
   */
  lemma {:induction false} MovedFromExact(col: seq<Slot>, c: nat, p: nat)
    requires p <= |col|
    ensures forall m :: 0 <= m < |MovedFrom(col, c, p)| ==>
      var x := MovedFrom(col, c, p)[m];
      x.col == c && p <= x.previousRow < x.row < |col| && Moves(col, x.previousRow) &&
      x.icon == col[x.previousRow] && Collapse(col)[x.row] == x.icon &&
      x.row == x.previousRow + Nulls(col[x.previousRow + 1..])
    ensures forall q :: p <= q < |col| ==>
      (Moves(col, q) <==> exists m :: 0 <= m < |MovedFrom(col, c, p)| && MovedFrom(col, c, p)[m].previousRow == q)
    ensures forall m, m' :: 0 <= m < m' < |MovedFrom(col, c, p)| ==>
      MovedFrom(col, c, p)[m].previousRow > MovedFrom(col, c, p)[m'].previousRow
  {
    MovedFromCells(col, c, p);
    MovedFromCovers(col, c, p);
    MovedFromOrder(col, c, p);
    assert forall q :: p <= q < |col| ==>
      (Moves(col, q) <==> exists m :: 0 <= m < |MovedFrom(col, c, p)| && MovedFrom(col, c, p)[m].previousRow == q);
  }

  /**
    The report runs bottom-up: previous rows strictly decrease along the
    list, so no icon is reported twice.
   */
  lemma {:induction false} MovedFromOrder(col: seq<Slot>, c: nat, p: nat)
    requires p <= |col|
    ensures forall m, m' :: 0 <= m < m' < |MovedFrom(col, c, p)| ==>
      MovedFrom(col, c, p)[m].previousRow > MovedFrom(col, c, p)[m'].previousRow
    decreases |col| - p
  {
    if p < |col| {
      MovedFromOrder(col, c, p + 1);
      MovedFromCells(col, c, p + 1);
      var rest := MovedFrom(col, c, p + 1);
      var here: seq<Cell> := if Moves(col, p) then [Cell(p + Nulls(col[p + 1..]), c, col[p], p)] else [];
      assert MovedFrom(col, c, p) == rest + here;
    }
  }

  /** The first half of MovedFromExact: what each reported cell says. */
  lemma {:induction false} MovedFromCells(col: seq<Slot>, c: nat, p: nat)
    requires p <= |col|
    ensures forall m :: 0 <= m < |MovedFrom(col, c, p)| ==>
      var x := MovedFrom(col, c, p)[m];
      x.col == c && p <= x.previousRow < x.row < |col| && Moves(col, x.previousRow) &&
      x.icon == col[x.previousRow] && Collapse(col)[x.row] == x.icon &&
      x.row == x.previousRow + Nulls(col[x.previousRow + 1..])
    decreases |col| - p
  {
    if p < |col| {
      MovedFromCells(col, c, p + 1);
      var rest := MovedFrom(col, c, p + 1);
      var here: seq<Cell> := if Moves(col, p) then [Cell(p + Nulls(col[p + 1..]), c, col[p], p)] else [];
      assert MovedFrom(col, c, p) == rest + here;
      if Moves(col, p) {
        LandingRow(col, p);
      }
    }
  }

  /** The second half of MovedFromExact: every icon that moves is reported. */
  lemma {:induction false} MovedFromCovers(col: seq<Slot>, c: nat, p: nat)
    requires p <= |col|
    ensures forall q :: p <= q < |col| ==>
      (Moves(col, q) <==> exists m :: 0 <= m < |MovedFrom(col, c, p)| && MovedFrom(col, c, p)[m].previousRow == q)
    decreases |col| - p
  {
    if p < |col| {
      MovedFromCovers(col, c, p + 1);
      MovedFromCells(col, c, p + 1);
      var rest := MovedFrom(col, c, p + 1);
      var here: seq<Cell> := if Moves(col, p) then [Cell(p + Nulls(col[p + 1..]), c, col[p], p)] else [];
      assert MovedFrom(col, c, p) == rest + here;
      if Moves(col, p) {
        assert (rest + here)[|rest|].previousRow == p;
      }
      forall q | p < q < |col| && Moves(col, q)
        ensures exists m :: 0 <= m < |rest + here| && (rest + here)[m].previousRow == q
      {
        var m :| 0 <= m < |rest| && rest[m].previousRow == q;
        assert (rest + here)[m] == rest[m];
      }
    }
  }

  /**
    col with its empty slots filled from the supply, bottom-up: the empty
    slot at row r takes draw d + (the number of empty slots below r).
   */
  function Refill(col: seq<Slot>, supply: nat -> IconType, d: nat): seq<Slot>
  {
    seq(|col|, r requires 0 <= r < |col| =>
      if col[r].None? then Some(supply(d + Nulls(col[r + 1..]))) else col[r])
  }

  /** After a refill the column holds no empty slot and every icon it had stays in place. */
  lemma {:induction false} RefillCompletes(col: seq<Slot>, supply: nat -> IconType, d: nat)
    ensures |Refill(col, supply, d)| == |col|
    ensures forall r :: 0 <= r < |col| ==> Refill(col, supply, d)[r].Some?
    ensures forall r :: 0 <= r < |col| && col[r].Some? ==> Refill(col, supply, d)[r] == col[r]
  {
  }

  /**
    The cells that refilling col (column c of the grid) reports for rows p
    and below, bottom first; previousRow is -1, one row above the grid.
   */
  function FilledFrom(col: seq<Slot>, c: nat, supply: nat -> IconType, d: nat, p: nat): seq<Cell>
    requires p <= |col|
    decreases |col| - p
  {
    if p == |col| then []
    else
      FilledFrom(col, c, supply, d, p + 1) +
      (if col[p].None? then [Cell(p, c, Some(supply(d + Nulls(col[p + 1..]))), -1)] else [])
  }

  /** A refill reports one cell per empty slot. */
  lemma {:induction false} FilledFromLength(col: seq<Slot>, c: nat, supply: nat -> IconType, d: nat, p: nat)
    requires p <= |col|
    ensures |FilledFrom(col, c, supply, d, p)| == Nulls(col[p..])
    decreases |col| - p
  {
    if p < |col| {
      FilledFromLength(col, c, supply, d, p + 1);
      SuffixStep(col, p, p + 1);
    } else {
      assert col[p..] == [];
    }
  }

  /**
    Each reported cell names an empty slot at row p or below, carries
    previousRow -1 and, as the m-th report, draw d + m of the supply, which
    is the icon the refill put at its row.
   */
  lemma {:induction false} FilledFromCells(col: seq<Slot>, c: nat, supply: nat -> IconType, d: nat, p: nat)
    requires p <= |col|
    ensures forall m :: 0 <= m < |FilledFrom(col, c, supply, d, p)| ==>
      var x := FilledFrom(col, c, supply, d, p)[m];
      x.col == c && p <= x.row < |col| && col[x.row].None? && x.previousRow == -1 &&
      x.icon == Some(supply(d + m)) && x.icon == Refill(col, supply, d)[x.row]
  {
    var all := FilledFrom(col, c, supply, d, p);
    FilledFromRows(col, c, supply, d, p);
    forall m | 0 <= m < |all|
      ensures all[m].icon == Some(supply(d + m)) && all[m].icon == Refill(col, supply, d)[all[m].row]
    {
      FilledFromIconAt(col, c, supply, d, p, m);
    }
  }

  /** Every reported cell names an empty slot of column c at row p or below. */
  lemma {:induction false} FilledFromRows(col: seq<Slot>, c: nat, supply: nat -> IconType, d: nat, p: nat)
    requires p <= |col|
    ensures forall m :: 0 <= m < |FilledFrom(col, c, supply, d, p)| ==>
      var x := FilledFrom(col, c, supply, d, p)[m];
      x.col == c && p <= x.row < |col| && col[x.row].None? && x.previousRow == -1
    decreases |col| - p
  {
    if p < |col| {
      FilledFromRows(col, c, supply, d, p + 1);
      var rest := FilledFrom(col, c, supply, d, p + 1);
      var here: seq<Cell> := if col[p].None? then [Cell(p, c, Some(supply(d + Nulls(col[p + 1..]))), -1)] else [];
      var all := FilledFrom(col, c, supply, d, p);
      assert all == rest + here;
      forall m | 0 <= m < |all|
        ensures all[m].col == c && p <= all[m].row < |col| && col[all[m].row].None? && all[m].previousRow == -1
      {
        if m < |rest| {
          assert all[m] == rest[m];
        } else {
          assert all[m] == here[0];
        }
      }
    }
  }

  /** The m-th report has m empty slots below it and carries the m-th drawn icon. */
  lemma {:induction false} FilledFromIconAt(col: seq<Slot>, c: nat, supply: nat -> IconType, d: nat, p: nat, m: nat)
    requires p <= |col| && m < |FilledFrom(col, c, supply, d, p)|
    ensures p <= FilledFrom(col, c, supply, d, p)[m].row < |col|
    ensures Nulls(col[FilledFrom(col, c, supply, d, p)[m].row + 1..]) == m
    ensures FilledFrom(col, c, supply, d, p)[m].icon == Some(supply(d + m))
    decreases |col| - p
  {
    var rest := FilledFrom(col, c, supply, d, p + 1);
    var here: seq<Cell> := if col[p].None? then [Cell(p, c, Some(supply(d + Nulls(col[p + 1..]))), -1)] else [];
    var all := FilledFrom(col, c, supply, d, p);
    assert all == rest + here;
    if m < |rest| {
      FilledFromIconAt(col, c, supply, d, p + 1, m);
      assert all[m] == rest[m];
    } else {
      FilledFromLength(col, c, supply, d, p + 1);
      assert all[m] == here[0];
    }
  }

  /** The reports run bottom-up: rows strictly decrease along the list. */
  lemma {:induction false} FilledFromOrder(col: seq<Slot>, c: nat, supply: nat -> IconType, d: nat, p: nat)
    requires p <= |col|
    ensures forall m, m' :: 0 <= m < m' < |FilledFrom(col, c, supply, d, p)| ==>
      FilledFrom(col, c, supply, d, p)[m].row > FilledFrom(col, c, supply, d, p)[m'].row
    decreases |col| - p
  {
    if p < |col| {
      FilledFromOrder(col, c, supply, d, p + 1);
      FilledFromRows(col, c, supply, d, p + 1);
      var rest := FilledFrom(col, c, supply, d, p + 1);
      var here: seq<Cell> := if col[p].None? then [Cell(p, c, Some(supply(d + Nulls(col[p + 1..]))), -1)] else [];
      assert FilledFrom(col, c, supply, d, p) == rest + here;
    }
  }

  /** Every empty slot at row p or below is reported. */
  lemma {:induction false} FilledFromCovers(col: seq<Slot>, c: nat, supply: nat -> IconType, d: nat, p: nat)
    requires p <= |col|
    ensures forall r :: p <= r < |col| && col[r].None? ==>
      exists m :: 0 <= m < |FilledFrom(col, c, supply, d, p)| && FilledFrom(col, c, supply, d, p)[m].row == r
    decreases |col| - p
  {
    if p < |col| {
      FilledFromCovers(col, c, supply, d, p + 1);
      var rest := FilledFrom(col, c, supply, d, p + 1);
      var here: seq<Cell> := if col[p].None? then [Cell(p, c, Some(supply(d + Nulls(col[p + 1..]))), -1)] else [];
      assert FilledFrom(col, c, supply, d, p) == rest + here;
      forall r | p <= r < |col| && col[r].None?
        ensures exists m :: 0 <= m < |FilledFrom(col, c, supply, d, p)| && FilledFrom(col, c, supply, d, p)[m].row == r
      {
        if r == p {
          assert FilledFrom(col, c, supply, d, p)[|rest|].row == p;
        } else {
          var m :| 0 <= m < |rest| && rest[m].row == r;
          assert FilledFrom(col, c, supply, d, p)[m] == rest[m];
        }
      }
    }
  }

  // ---------------------------------------------------------------------
  // Every column of a grid, left to right, drawing from one supply
  // ---------------------------------------------------------------------

  /** Draws used by the refills of columns 0 .. n - 1 of g. */
  function DrawsBefore(g: Grid, w: nat, n: nat): nat
    requires Rect(g, w) && n <= w
  {
    if n == 0 then 0 else DrawsBefore(g, w, n - 1) + Nulls(Column(g, n - 1))
  }

  /** Column c of g once collapsed and refilled, its draws following those of the columns to its left. */
  function SettledColumn(g: Grid, w: nat, c: nat, supply: nat -> IconType, d: nat): seq<Slot>
    requires Rect(g, w) && c < w
  {
    Refill(Collapse(Column(g, c)), supply, d + DrawsBefore(g, w, c))
  }

  /** g with its columns 0 .. n - 1 collapsed and refilled, left to right; the others as they were. */
  function PartlyResolved(g: Grid, w: nat, supply: nat -> IconType, d: nat, n: nat): (g': Grid)
    requires Rect(g, w) && n <= w
    ensures |g'| == |g| && Rect(g', w)
  {
    if n == 0 then g
    else WithColumn(PartlyResolved(g, w, supply, d, n - 1), n - 1, SettledColumn(g, w, n - 1, supply, d))
  }

  /** g with every column collapsed and refilled, left to right. */
  function Resolved(g: Grid, w: nat, supply: nat -> IconType, d: nat): (g': Grid)
    requires Rect(g, w)
    ensures |g'| == |g| && Rect(g', w)
  {
    PartlyResolved(g, w, supply, d, w)
  }

  /** Columns left of n are settled, the others untouched. */
  lemma {:induction false} PartlyResolvedAt(g: Grid, w: nat, supply: nat -> IconType, d: nat, n: nat, r: nat, c: nat)
    requires Rect(g, w) && n <= w && r < |g| && c < w
    ensures PartlyResolved(g, w, supply, d, n)[r][c] == if c < n then SettledColumn(g, w, c, supply, d)[r] else g[r][c]
  {
    if n > 0 {
      PartlyResolvedAt(g, w, supply, d, n - 1, r, c);
    }
  }

  /**
    After gravity and refill every column is full: its surviving icons at
    the bottom in their original order, below exactly as many new icons as
    it had empty slots.
   */
  lemma {:induction false} ResolvedColumns(g: Grid, w: nat, supply: nat -> IconType, d: nat, c: nat)
    requires Rect(g, w) && c < w
    ensures var col := Column(Resolved(g, w, supply, d), c);
      (forall r :: 0 <= r < |g| ==> col[r].Some?) &&
      col[Nulls(Column(g, c))..] == Present(Column(g, c))
  {
    var before := Column(g, c);
    var collapsed := Collapse(before);
    var col := Column(Resolved(g, w, supply, d), c);
    forall r | 0 <= r < |g|
      ensures col[r] == SettledColumn(g, w, c, supply, d)[r]
    {
      PartlyResolvedAt(g, w, supply, d, w, r, c);
    }
    assert col == SettledColumn(g, w, c, supply, d);
    RefillCompletes(collapsed, supply, d + DrawsBefore(g, w, c));
    assert collapsed[Nulls(before)..] == Present(before);
  }

  /** After gravity and refill the grid holds no empty position. */
  lemma {:induction false} ResolvedFull(g: Grid, w: nat, supply: nat -> IconType, d: nat)
    requires Rect(g, w)
    ensures Full(Resolved(g, w, supply, d))
  {
    var g': Grid := Resolved(g, w, supply, d);
    forall r, c | 0 <= r < |g'| && 0 <= c < |g'[r]|
      ensures g'[r][c].Some?
    {
      PartlyResolvedAt(g, w, supply, d, w, r, c);
      RefillCompletes(Collapse(Column(g, c)), supply, d + DrawsBefore(g, w, c));
      assert g'[r][c] == SettledColumn(g, w, c, supply, d)[r];
    }
  }

  /** The moved-icon reports of columns 0 .. n - 1, left to right. */
  function AllMoved(g: Grid, w: nat, n: nat): seq<Cell>
    requires Rect(g, w) && n <= w
  {
    if n == 0 then [] else AllMoved(g, w, n - 1) + MovedFrom(Column(g, n - 1), n - 1, 0)
  }

  /** The new-icon reports of columns 0 .. n - 1, left to right. */
  function AllFilled(g: Grid, w: nat, supply: nat -> IconType, d: nat, n: nat): seq<Cell>
    requires Rect(g, w) && n <= w
  {
    if n == 0 then []
    else
      AllFilled(g, w, supply, d, n - 1) +
      FilledFrom(Collapse(Column(g, n - 1)), n - 1, supply, d + DrawsBefore(g, w, n - 1), 0)
  }

  /**
    The column during the in-place collapse, which scans it bottom-up: j
    empty slots already moved to the top, the unscanned rows 0 .. q - 1,
    and the icons of rows q and below, already settled.
   */
  function Scanning(cc: seq<Slot>, j: nat, q: nat): (x: seq<Slot>)
    requires q <= |cc| && j == Nulls(cc[q..])
    ensures |x| == |cc|
  {
    Nones(j) + cc[..q] + Present(cc[q..])
  }

  /** Scanning row p of the collapse reports the icon there when it moves. */
  lemma {:induction false} CollapseScanMoved(cc: seq<Slot>, c: nat, p: nat, q: nat, j: nat, i: nat)
    requires q == p + 1 && i == p + j && q <= |cc| && j == Nulls(cc[q..])
    ensures MovedFrom(cc, c, p) ==
      MovedFrom(cc, c, q) + (if cc[p].Some? && j > 0 then [Cell(i, c, cc[p], i - j)] else [])
  {
  }

  /** The scan reads row p of the column at row p + j of the grid. */
  lemma {:induction false} CollapseScanRead(cc: seq<Slot>, p: nat, q: nat, j: nat, i: nat)
    requires q == p + 1 && i == p + j && q <= |cc| && j == Nulls(cc[q..])
    ensures i < |cc| && Scanning(cc, j, q)[i] == cc[p]
    ensures Nulls(cc[p..]) == if cc[p].None? then j + 1 else j
  {
    SuffixStep(cc, p, q);
    assert cc[..q] == cc[..p] + [cc[p]];
  }

  /** An icon read by the scan stays where it is and joins the settled icons. */
  lemma {:induction false} CollapseScanIcon(cc: seq<Slot>, p: nat, q: nat, j: nat)
    requires q == p + 1 && q <= |cc| && j == Nulls(cc[q..]) && cc[p].Some?
    ensures Nulls(cc[p..]) == j
    ensures Scanning(cc, j, q) == Scanning(cc, j, p)
  {
    SuffixStep(cc, p, q);
    assert cc[..q] == cc[..p] + [cc[p]];
  }

  /**
    An empty slot read by the scan is removed: the rows above it shift
    down and one more empty slot sits on top.
   */
  lemma {:induction false} CollapseScanEmpty(cc: seq<Slot>, p: nat, j: nat)
    requires p < |cc| && j == Nulls(cc[p + 1..]) && cc[p].None?
    ensures Nulls(cc[p..]) == j + 1
    ensures ShiftedDown(Scanning(cc, j, p + 1), p + j) == Scanning(cc, j + 1, p)
  {
    SuffixStep(cc, p, p + 1);
    ScanEmptyParts(cc, p, j);
    ShiftedDownGap(Nones(j), cc[..p], Present(cc[p + 1..]));
  }

  /** Removing an empty slot at row 0 changes nothing. */
  lemma {:induction false} ShiftedDownTop(x: seq<Slot>)
    requires |x| > 0 && x[0] == None
    ensures ShiftedDown(x, 0) == x
  {
    assert x == [None] + x[1..];
  }

  /** The two scan states around an empty slot, cut into the same pieces. */
  lemma {:induction false} ScanEmptyParts(cc: seq<Slot>, p: nat, j: nat)
    requires p < |cc| && j == Nulls(cc[p + 1..]) && cc[p].None? && Nulls(cc[p..]) == j + 1
    requires Present(cc[p..]) == Present(cc[p + 1..])
    ensures Scanning(cc, j, p + 1) == Nones(j) + (cc[..p] + [None]) + Present(cc[p + 1..])
    ensures Scanning(cc, j + 1, p) == [None] + Nones(j) + cc[..p] + Present(cc[p + 1..])
  {
    assert cc[..p + 1] == cc[..p] + [None];
    assert Nones(j + 1) == [None] + Nones(j);
  }

  /** Removing the empty slot that follows a + t moves a + t down by one. */
  lemma {:induction false} ShiftedDownGap(a: seq<Slot>, t: seq<Slot>, u: seq<Slot>)
    ensures ShiftedDown(a + (t + [None]) + u, |a| + |t|) == [None] + a + t + u
    ensures |a| + |t| == 0 ==> a + (t + [None]) + u == [None] + a + t + u
  {
    var x := a + (t + [None]) + u;
    assert x[..|a| + |t|] == a + t;
    assert x[|a| + |t| + 1..] == u;
    if |a| + |t| == 0 {
      assert a == [] && t == [];
    }
  }

  /**
    Removing the empty slot at row i = p + j of the grid g, whose column c
    is the scan state x, gives the grid whose column c is the next scan
    state (at row 0 nothing needs to move).
   */
  lemma {:induction false} CollapseRowRemove(g0: Grid, c: nat, cc: seq<Slot>, p: nat, q: nat, j: nat, i: nat, x: seq<Slot>, g: Grid)
    requires forall r :: 0 <= r < |g0| ==> c < |g0[r]|
    requires q == p + 1 && q <= |cc| && |cc| == |g0| && j == Nulls(cc[q..]) && i == p + j && cc[p].None?
    requires x == Scanning(cc, j, q) && g == WithColumn(g0, c, x)
    ensures Nulls(cc[p..]) == j + 1
    ensures (if i != 0 then WithColumn(g, c, ShiftedDown(x, i)) else g) == WithColumn(g0, c, Scanning(cc, j + 1, p))
  {
    assert p + 1 == q;
    CollapseScanEmpty(cc, p, j);
    WithColumnTwice(g0, c, x, ShiftedDown(x, i));
    if i == 0 {
      CollapseScanRead(cc, p, q, j, i);
      ShiftedDownTop(x);
    }
  }

  /**
    The collapse scan of column c, bottom-up, as a recursive definition:
    the scan is at row i with j empty slots already removed, and moved is
    the report so far. An icon at row i is kept, and reported with its
    row before the scan (i - j) when that differs; an empty slot is
    removed by shifting the rows above it down (at row 0 nothing needs to
    move). The scan stops once i < j: rows 0 .. j - 1 are all empty.
   */
  function CollapseScan(g: Grid, c: nat, i: int, j: nat, moved: seq<Cell>): (Grid, seq<Cell>)
    requires forall r :: 0 <= r < |g| ==> c < |g[r]|
    requires i < |g|
    decreases i - j + 1
  {
    if i < j then (g, moved)
    else if g[i][c].Some? then
      var a := Cell(i, c, g[i][c], i - j);
      CollapseScan(g, c, i - 1, j, if a.row != a.previousRow then moved + [a] else moved)
    else
      CollapseScan(if i != 0 then WithColumn(g, c, ShiftedDown(Column(g, c), i)) else g, c, i, j + 1, moved)
  }

  /**
    One step of the scan: an icon at row i stays where it is and is
    reported when it has fallen; an empty slot at row i is removed and
    counted, and nothing is reported.
   */
  lemma {:induction false} CollapseScanStep(g: Grid, c: nat, i: nat, j: nat, moved: seq<Cell>,
                                            g': Grid, i': int, j': nat, moved': seq<Cell>)
    requires forall r :: 0 <= r < |g| ==> c < |g[r]|
    requires j <= i < |g|
    requires g[i][c].Some? ==>
               g' == g && i' == i - 1 && j' == j &&
               moved' == if j > 0 then moved + [Cell(i, c, g[i][c], i - j)] else moved
    requires g[i][c].None? ==>
               g' == (if i != 0 then WithColumn(g, c, ShiftedDown(Column(g, c), i)) else g) &&
               i' == i && j' == j + 1 && moved' == moved
    ensures i' < |g'| && forall r :: 0 <= r < |g'| ==> c < |g'[r]|
    ensures CollapseScan(g, c, i, j, moved) == CollapseScan(g', c, i', j', moved')
  {
    if g[i][c].Some? {
      CollapseScanKeeps(g, c, i, j, moved, moved');
    } else {
      CollapseScanRemoves(g, c, i, j, moved, g');
    }
  }

  /** An icon at row i stays where it is; it is reported when it has fallen. */
  lemma {:induction false} CollapseScanKeeps(g: Grid, c: nat, i: nat, j: nat, moved: seq<Cell>, moved': seq<Cell>)
    requires forall r :: 0 <= r < |g| ==> c < |g[r]|
    requires j <= i < |g| && g[i][c].Some?
    requires moved' == if j > 0 then moved + [Cell(i, c, g[i][c], i - j)] else moved
    ensures CollapseScan(g, c, i, j, moved) == CollapseScan(g, c, i - 1, j, moved')
  {
  }

  /** An empty slot at row i is removed and counted; nothing is reported. */
  lemma {:induction false} CollapseScanRemoves(g: Grid, c: nat, i: nat, j: nat, moved: seq<Cell>, g': Grid)
    requires forall r :: 0 <= r < |g| ==> c < |g[r]|
    requires j <= i < |g| && g[i][c].None?
    requires g' == if i != 0 then WithColumn(g, c, ShiftedDown(Column(g, c), i)) else g
    ensures CollapseScan(g, c, i, j, moved) == CollapseScan(g', c, i, j + 1, moved)
  {
  }

  /**
    From any point of the scan over column c of g0 (rows q and below
    scanned, j empty slots removed, their moves reported), the scan ends
    with column c collapsed and every moved icon reported.
   */
  lemma {:induction false} CollapseScanFrom(g0: Grid, c: nat, cc: seq<Slot>, q: nat, j: nat, i: int, g: Grid, moved: seq<Cell>)
    requires forall r :: 0 <= r < |g0| ==> c < |g0[r]|
    requires cc == Column(g0, c) && q <= |cc| && j == Nulls(cc[q..]) && i == q - 1 + j
    requires g == WithColumn(g0, c, Scanning(cc, j, q)) && moved == MovedFrom(cc, c, q)
    ensures i < |g| && forall r :: 0 <= r < |g| ==> c < |g[r]|
    ensures CollapseScan(g, c, i, j, moved) == (WithColumn(g0, c, Collapse(cc)), MovedFrom(cc, c, 0))
    decreases q, 1
  {
    if q == 0 {
      assert cc[0..] == cc;
      assert Scanning(cc, j, 0) == Collapse(cc);
    } else {
      CollapseScanNext(g0, c, cc, q - 1, q, j, i, g, moved);
    }
  }

  /** The scan step at row p of cc, followed by the rest of the scan. */
  lemma {:induction false} CollapseScanNext(g0: Grid, c: nat, cc: seq<Slot>, p: nat, q: nat, j: nat, i: nat, g: Grid, moved: seq<Cell>)
    requires forall r :: 0 <= r < |g0| ==> c < |g0[r]|
    requires cc == Column(g0, c) && q == p + 1 && q <= |cc| && j == Nulls(cc[q..]) && i == p + j
    requires g == WithColumn(g0, c, Scanning(cc, j, q)) && moved == MovedFrom(cc, c, q)
    ensures i < |g| && forall r :: 0 <= r < |g| ==> c < |g[r]|
    ensures CollapseScan(g, c, i, j, moved) == (WithColumn(g0, c, Collapse(cc)), MovedFrom(cc, c, 0))
    decreases q, 0
  {
    var x := Scanning(cc, j, q);
    CollapseScanRead(cc, p, q, j, i);
    ColumnOfWithColumn(g0, c, x, c);
    CollapseScanMoved(cc, c, p, q, j, i);
    var j' := Nulls(cc[p..]);
    var g' := WithColumn(g0, c, Scanning(cc, j', p));
    var moved' := MovedFrom(cc, c, p);
    var i' := if cc[p].Some? then i - 1 else i;
    if cc[p].Some? {
      CollapseScanIcon(cc, p, q, j);
    } else {
      CollapseRowRemove(g0, c, cc, p, q, j, i, x, g);
    }
    CollapseScanStep(g, c, i, j, moved, g', i', j', moved');
    CollapseScanFrom(g0, c, cc, p, j', i', g', moved');
  }

  /**
    The whole scan, started at the bottom row with nothing removed,
    collapses column c and reports exactly the icons that moved.
   */
  lemma {:induction false} CollapseScanCollapses(g: Grid, c: nat)
    requires forall r :: 0 <= r < |g| ==> c < |g[r]|
    ensures CollapseScan(g, c, |g| - 1, 0, []) ==
      (WithColumn(g, c, Collapse(Column(g, c))), MovedFrom(Column(g, c), c, 0))
  {
    var cc := Column(g, c);
    WithOwnColumn(g, c);
    assert cc[|cc|..] == [];
    assert Scanning(cc, 0, |cc|) == cc;
    CollapseScanFrom(g, c, cc, |cc|, 0, |g| - 1, g, []);
  }

  /**
    One step of the bottom-up refill scan at row i: rows i + 1 and below
    already hold their refilled slots; row i is refilled when empty.
   */
  lemma {:induction false} RefillScanStep(cc: seq<Slot>, supply: nat -> IconType, d: nat, p: nat, i: nat,
                                          x: seq<Slot>, y: seq<Slot>)
    requires i == p + 1 && i <= |cc|
    requires x == cc[..i] + Refill(cc, supply, d)[i..] && y == cc[..p] + Refill(cc, supply, d)[p..]
    ensures |x| == |cc| && x[p] == cc[p]
    ensures cc[p].None? ==> x[p := Some(supply(d + Nulls(cc[i..])))] == y
    ensures cc[p].Some? ==> x == y
  {
    var filled := Refill(cc, supply, d);
    var v := if cc[p].None? then Some(supply(d + Nulls(cc[i..]))) else cc[p];
    forall k | 0 <= k < |cc|
      ensures x[p := v][k] == y[k]
    {
      if k < p {
      } else if k == p {
        assert filled[p] == v;
      } else {
      }
    }
    assert x[p := v] == y;
  }

  /**
    The refill scan of column c, bottom-up, as a recursive definition:
    rows i and above are still to be scanned, e is the next draw and
    added the report so far. An empty slot at row i - 1 takes supply(e)
    and is reported with previousRow -1; an icon is kept.
   */
  function FillScan(g: Grid, c: nat, i: nat, supply: nat -> IconType, e: nat, added: seq<Cell>): (Grid, nat, seq<Cell>)
    requires forall r :: 0 <= r < |g| ==> c < |g[r]|
    requires i <= |g|
    decreases i
  {
    if i == 0 then (g, e, added)
    else if g[i - 1][c].None? then
      var t := Some(supply(e));
      FillScan(SetCell(g, i - 1, c, t), c, i - 1, supply, e + 1, added + [Cell(i - 1, c, t, -1)])
    else FillScan(g, c, i - 1, supply, e, added)
  }

  /**
    One step of the refill scan at row p = i - 1 of column c: an empty slot
    takes supply(e) and is reported, an icon is kept.
   */
  lemma {:induction false} FillScanStep(g: Grid, g': Grid, c: nat, p: nat, i: nat, supply: nat -> IconType,
                                        e: nat, e': nat, a: seq<Cell>, a': seq<Cell>)
    requires forall r :: 0 <= r < |g| ==> c < |g[r]|
    requires i <= |g| && i == p + 1
    requires g[p][c].None? ==>
      g' == SetCell(g, p, c, Some(supply(e))) && e' == e + 1 && a' == a + [Cell(p, c, Some(supply(e)), -1)]
    requires g[p][c].Some? ==> g' == g && e' == e && a' == a
    ensures forall r :: 0 <= r < |g'| ==> c < |g'[r]|
    ensures FillScan(g, c, i, supply, e, a) == FillScan(g', c, p, supply, e', a')
  {
  }

  /** The report of a refill from row p is the report from row p + 1, then row p's own cell. */
  lemma {:induction false} FilledFromStep(col: seq<Slot>, c: nat, supply: nat -> IconType, d: nat, p: nat, i: nat)
    requires i <= |col| && i == p + 1
    ensures FilledFrom(col, c, supply, d, p) == FilledFrom(col, c, supply, d, i) +
      (if col[p].None? then [Cell(p, c, Some(supply(d + Nulls(col[i..]))), -1)] else [])
  {
  }

  /**
    From any point of the refill scan over column c of g0 (rows i and
    below refilled, their draws taken and reported), the scan ends with
    column c refilled, one draw per empty slot, and every filled slot
    reported.
   */
  lemma {:induction false} FillScanFrom(g0: Grid, c: nat, cc: seq<Slot>, supply: nat -> IconType, d: nat, i: nat,
                                        g: Grid, e: nat, a: seq<Cell>)
    requires forall r :: 0 <= r < |g0| ==> c < |g0[r]|
    requires cc == Column(g0, c) && i <= |cc|
    requires g == WithColumn(g0, c, cc[..i] + Refill(cc, supply, d)[i..])
    requires e == d + Nulls(cc[i..]) && a == FilledFrom(cc, c, supply, d, i)
    ensures i <= |g| && forall r :: 0 <= r < |g| ==> c < |g[r]|
    ensures FillScan(g, c, i, supply, e, a) ==
      (WithColumn(g0, c, Refill(cc, supply, d)), d + Nulls(cc), FilledFrom(cc, c, supply, d, 0))
    decreases i, 1
  {
    if i == 0 {
      var filled := Refill(cc, supply, d);
      ColumnOfWithColumn(g0, c, cc[..0] + filled[0..], c);
      assert cc[..0] + filled[0..] == filled;
      assert cc[0..] == cc;
    } else {
      FillScanNext(g0, c, cc, supply, d, i - 1, i, g, e, a);
    }
  }

  /**
    The grid during the in-place fill of column c of g0 (contents cc,
    first draw d): from g (rows i and below refilled) to g' (row p = i - 1
    refilled too), an empty slot at row p takes draw e and an icon stays.
   */
  lemma {:induction false} FillRowGrid(g0: Grid, c: nat, cc: seq<Slot>, supply: nat -> IconType, d: nat, p: nat, i: nat,
                                       g: Grid, g': Grid, e: nat)
    requires forall r :: 0 <= r < |g0| ==> c < |g0[r]|
    requires cc == Column(g0, c) && i <= |cc| && i == p + 1
    requires g == WithColumn(g0, c, cc[..i] + Refill(cc, supply, d)[i..])
    requires g' == WithColumn(g0, c, cc[..p] + Refill(cc, supply, d)[p..])
    requires e == d + Nulls(cc[i..])
    ensures forall r :: 0 <= r < |g| ==> c < |g[r]|
    ensures p < |g| && g[p][c] == cc[p]
    ensures cc[p].None? ==> g' == SetCell(g, p, c, Some(supply(e)))
    ensures cc[p].Some? ==> g' == g
  {
    var x := cc[..i] + Refill(cc, supply, d)[i..];
    RefillScanStep(cc, supply, d, p, i, x, cc[..p] + Refill(cc, supply, d)[p..]);
    ColumnOfWithColumn(g0, c, x, c);
    SetCellInColumn(g0, c, x, p, Some(supply(e)));
  }

  /**
    The draws and the report during the fill of column cc (first draw d):
    from row i to row p = i - 1, an empty slot takes draw e and is
    reported; an icon changes neither.
   */
  lemma {:induction false} FillRowReport(cc: seq<Slot>, c: nat, supply: nat -> IconType, d: nat, p: nat, i: nat,
                                         e: nat, e': nat, a: seq<Cell>, a': seq<Cell>)
    requires i <= |cc| && i == p + 1
    requires e == d + Nulls(cc[i..]) && e' == d + Nulls(cc[p..])
    requires a == FilledFrom(cc, c, supply, d, i) && a' == FilledFrom(cc, c, supply, d, p)
    ensures cc[p].None? ==> e' == e + 1 && a' == a + [Cell(p, c, Some(supply(e)), -1)]
    ensures cc[p].Some? ==> e' == e && a' == a
  {
    SuffixStep(cc, p, i);
    FilledFromStep(cc, c, supply, d, p, i);
  }

  /**
    The fill step at row p = i - 1 of column c of g0 (contents cc, first
    draw d), followed by the rest of the scan: an empty slot takes draw e
    and is reported, an icon is left alone.
   */
  lemma {:induction false} FillScanNext(g0: Grid, c: nat, cc: seq<Slot>, supply: nat -> IconType, d: nat, p: nat, i: nat,
                                        g: Grid, e: nat, a: seq<Cell>)
    requires forall r :: 0 <= r < |g0| ==> c < |g0[r]|
    requires cc == Column(g0, c) && i <= |cc| && i == p + 1
    requires g == WithColumn(g0, c, cc[..i] + Refill(cc, supply, d)[i..])
    requires e == d + Nulls(cc[i..]) && a == FilledFrom(cc, c, supply, d, i)
    ensures i <= |g| && forall r :: 0 <= r < |g| ==> c < |g[r]|
    ensures FillScan(g, c, i, supply, e, a) ==
      (WithColumn(g0, c, Refill(cc, supply, d)), d + Nulls(cc), FilledFrom(cc, c, supply, d, 0))
    decreases i, 0
  {
    var filled := Refill(cc, supply, d);
    var g' := WithColumn(g0, c, cc[..p] + filled[p..]);
    FillRowGrid(g0, c, cc, supply, d, p, i, g, g', e);
    var e' := d + Nulls(cc[p..]);
    var a' := FilledFrom(cc, c, supply, d, p);
    FillRowReport(cc, c, supply, d, p, i, e, e', a, a');
    FillScanStep(g, g', c, p, i, supply, e, e', a, a');
    FillScanFrom(g0, c, cc, supply, d, p, g', e', a');
  }

  /**
    The whole refill scan, started below the bottom row, refills column
    c, takes one draw per empty slot and reports exactly the filled slots.
   */
  lemma {:induction false} FillScanRefills(g: Grid, c: nat, supply: nat -> IconType, d: nat)
    requires forall r :: 0 <= r < |g| ==> c < |g[r]|
    ensures FillScan(g, c, |g|, supply, d, []) ==
      (WithColumn(g, c, Refill(Column(g, c), supply, d)), d + Nulls(Column(g, c)),
       FilledFrom(Column(g, c), c, supply, d, 0))
  {
    var cc := Column(g, c);
    WithOwnColumn(g, c);
    assert cc[..|cc|] + Refill(cc, supply, d)[|cc|..] == cc;
    assert cc[|cc|..] == [];
    FillScanFrom(g, c, cc, supply, d, |cc|, g, d, []);
  }

  /** Column n of a grid resolved left of n is still the original column n. */
  lemma {:induction false} PartlyResolvedColumn(g: Grid, w: nat, supply: nat -> IconType, d: nat, n: nat)
    requires Rect(g, w) && n < w
    ensures Column(PartlyResolved(g, w, supply, d, n), n) == Column(g, n)
  {
    var g': Grid := PartlyResolved(g, w, supply, d, n);
    var a := Column(g', n);
    forall r | 0 <= r < |g|
      ensures a[r] == Column(g, n)[r]
    {
      PartlyResolvedAt(g, w, supply, d, n, r, n);
      assert g'[r][n] == g[r][n];
    }
  }

  /** The column being settled still holds its original contents, and collapsing keeps its count of empty slots. */
  lemma {:induction false} SettleColumn(g: Grid, w: nat, supply: nat -> IconType, d: nat, n: nat, g2: Grid, g3: Grid, e: nat)
    requires Rect(g, w) && n < w
    requires g2 == PartlyResolved(g, w, supply, d, n)
    requires g3 == WithColumn(g2, n, Collapse(Column(g2, n)))
    ensures Column(g2, n) == Column(g, n)
    ensures g3 == WithColumn(g2, n, Collapse(Column(g, n)))
    ensures Column(g3, n) == Collapse(Column(g, n))
    ensures Nulls(Column(g3, n)) == Nulls(Column(g, n))
    ensures Refill(Column(g3, n), supply, e) == Refill(Collapse(Column(g, n)), supply, e)
    ensures FilledFrom(Column(g3, n), n, supply, e, 0) == FilledFrom(Collapse(Column(g, n)), n, supply, e, 0)
  {
    PartlyResolvedColumn(g, w, supply, d, n);
    ColumnOfWithColumn(g2, n, Collapse(Column(g, n)), n);
    CollapseKeepsIcons(Column(g, n));
  }

  /** The settled column n is the collapsed column refilled from draw d3. */
  lemma {:induction false} SettledColumnFrom(g: Grid, w: nat, supply: nat -> IconType, d: nat, n: nat, d3: nat)
    requires Rect(g, w) && n < w
    requires d3 == d + DrawsBefore(g, w, n)
    ensures SettledColumn(g, w, n, supply, d) == Refill(Collapse(Column(g, n)), supply, d3)
  {
  }

  /**
    Collapsing column n of a grid resolved left of n, then refilling it
    with the draws that follow those of columns 0 .. n - 1, resolves one
    more column.
   */
  lemma {:induction false} SettleGrid(g: Grid, w: nat, supply: nat -> IconType, d: nat, n: nat,
                   g2: Grid, g3: Grid, g4: Grid, d3: nat)
    requires Rect(g, w) && n < w
    requires g2 == PartlyResolved(g, w, supply, d, n)
    requires d3 == d + DrawsBefore(g, w, n)
    requires g3 == WithColumn(g2, n, Collapse(Column(g2, n)))
    requires g4 == WithColumn(g3, n, Refill(Column(g3, n), supply, d3))
    ensures g4 == PartlyResolved(g, w, supply, d, n + 1)
  {
    var collapsed := Collapse(Column(g, n));
    var settled := SettledColumn(g, w, n, supply, d);
    SettleColumn(g, w, supply, d, n, g2, g3, d3);
    SettledColumnFrom(g, w, supply, d, n, d3);
    WithColumnTwice(g2, n, collapsed, settled);
    calc {
      g4;
      WithColumn(g3, n, Refill(Column(g3, n), supply, d3));
      WithColumn(g3, n, Refill(collapsed, supply, d3));
      WithColumn(g3, n, settled);
      WithColumn(WithColumn(g2, n, collapsed), n, settled);
      WithColumn(g2, n, settled);
      PartlyResolved(g, w, supply, d, n + 1);
    }
  }

  /** Refilling column n draws as many icons as column n had empty slots. */
  lemma {:induction false} SettleDraws(g: Grid, w: nat, supply: nat -> IconType, d: nat, n: nat,
                    g2: Grid, g3: Grid, d3: nat, d4: nat)
    requires Rect(g, w) && n < w
    requires g2 == PartlyResolved(g, w, supply, d, n)
    requires d3 == d + DrawsBefore(g, w, n)
    requires g3 == WithColumn(g2, n, Collapse(Column(g2, n)))
    requires d4 == d3 + Nulls(Column(g3, n))
    ensures d4 == d + DrawsBefore(g, w, n + 1)
  {
    SettleColumn(g, w, supply, d, n, g2, g3, d3);
  }

  /** The collapse of column n extends the moved-icon report by that column's. */
  lemma {:induction false} SettleMoved(g: Grid, w: nat, supply: nat -> IconType, d: nat, n: nat,
                    g2: Grid, moved: seq<Cell>, a: seq<Cell>)
    requires Rect(g, w) && n < w
    requires g2 == PartlyResolved(g, w, supply, d, n)
    requires a == AllMoved(g, w, n)
    requires moved == MovedFrom(Column(g2, n), n, 0)
    ensures a + moved == AllMoved(g, w, n + 1)
  {
    PartlyResolvedColumn(g, w, supply, d, n);
  }

  /** The refill of column n extends the new-icon report by that column's. */
  lemma {:induction false} SettleFilled(g: Grid, w: nat, supply: nat -> IconType, d: nat, n: nat,
                     g2: Grid, g3: Grid, d3: nat, added: seq<Cell>, b: seq<Cell>)
    requires Rect(g, w) && n < w
    requires g2 == PartlyResolved(g, w, supply, d, n)
    requires d3 == d + DrawsBefore(g, w, n)
    requires b == AllFilled(g, w, supply, d, n)
    requires g3 == WithColumn(g2, n, Collapse(Column(g2, n)))
    requires added == FilledFrom(Column(g3, n), n, supply, d3, 0)
    ensures b + added == AllFilled(g, w, supply, d, n + 1)
  {
    SettleColumn(g, w, supply, d, n, g2, g3, d3);
    AllFilledNext(g, w, supply, d, n, d3);
  }

  /** The new-icon reports of one more column. */
  lemma {:induction false} AllFilledNext(g: Grid, w: nat, supply: nat -> IconType, d: nat, n: nat, d3: nat)
    requires Rect(g, w) && n < w
    requires d3 == d + DrawsBefore(g, w, n)
    ensures AllFilled(g, w, supply, d, n + 1) ==
      AllFilled(g, w, supply, d, n) + FilledFrom(Collapse(Column(g, n)), n, supply, d3, 0)
  {
  }
}
