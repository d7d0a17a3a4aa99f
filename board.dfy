/**
  The game grid as a value: rows top to bottom, each row left to right,
  every position holding an icon type or nothing (a cleared position).
  Cells, adjacency, Python-style indexing and the swap of two positions.
 */
module Board {

  datatype Option<T> = None | Some(value: T)

  /** The integer type of an icon, as handed out by a generator. */
  type IconType = int

  /** One grid position: `Some(t)` holds an icon of type t, `None` is empty. */
  type Slot = Option<IconType>

  /** `g[r][c]` is the position in row r (0 = top) and column c (0 = left). */
  type Grid = seq<seq<Slot>>

  /**
    A reported position: where an icon is (or was cleared from), the icon,
    and the row it occupied before the operation that reports it.
   */
  datatype Cell = Cell(row: int, col: int, icon: Slot, previousRow: int)

  /** Every position of g holds an icon. */
  predicate Full(g: Grid)
  {
    forall r, c :: 0 <= r < |g| && 0 <= c < |g[r]| ==> g[r][c].Some?
  }

  /** Every row of g has exactly w positions. */
  predicate Rect(g: Grid, w: nat)
  {
    forall r :: 0 <= r < |g| ==> |g[r]| == w
  }

  /** (r, c) is a position of a grid of height h and width w. */
  predicate Within(r: int, c: int, h: nat, w: nat)
  {
    0 <= r < h && 0 <= c < w
  }

  /** The icon at a cell's position is in the grid (width w, height h). */
  predicate InGrid(x: Cell, w: nat, h: nat)
  {
    Within(x.row, x.col, h, w)
  }

  /** Two cells differ by exactly one in exactly one coordinate. */
  predicate Adjacent(a: Cell, b: Cell)
  {
    (a.row == b.row && (a.col - b.col == 1 || b.col - a.col == 1)) ||
    (a.col == b.col && (a.row - b.row == 1 || b.row - a.row == 1))
  }

  /** Column c of g, top to bottom. */
  function Column(g: Grid, c: nat): (col: seq<Slot>)
    requires forall r :: 0 <= r < |g| ==> c < |g[r]|
    ensures |col| == |g|
    ensures forall r :: 0 <= r < |g| ==> col[r] == g[r][c]
  {
    seq(|g|, r requires 0 <= r < |g| => g[r][c])
  }

  /** g with column c replaced by col; every other column is kept. */
  function WithColumn(g: Grid, c: nat, col: seq<Slot>): (g': Grid)
    requires |col| == |g|
    requires forall r :: 0 <= r < |g| ==> c < |g[r]|
    ensures |g'| == |g|
    ensures forall r :: 0 <= r < |g| ==> g'[r] == g[r][c := col[r]]
  {
    seq(|g|, r requires 0 <= r < |g| => g[r][c := col[r]])
  }

  /** g with the single position (r, c) overwritten by v. */
  function SetCell(g: Grid, r: nat, c: nat, v: Slot): Grid
    requires r < |g| && c < |g[r]|
  {
    g[r := g[r][c := v]]
  }

  /**
    The exchange `[g[i][j], g[k][l]] = [g[k][l], g[i][j]]`: both right-hand
    values are read first, then (i, j) is written before (k, l).
   */
  function Swap(g: Grid, i: nat, j: nat, k: nat, l: nat): (g': Grid)
    requires i < |g| && j < |g[i]| && k < |g| && l < |g[k]|
    ensures |g'| == |g| && forall r :: 0 <= r < |g| ==> |g'[r]| == |g[r]|
  {
    SetCell(SetCell(g, i, j, g[k][l]), k, l, g[i][j])
  }

  /**
    Python's reading of index i into a list of length n: negative indices
    count from the end, anything else out of range raises IndexError (None).
   */
  function PyIndex(i: int, n: nat): (r: Option<nat>)
    ensures r.Some? <==> -(n as int) <= i < n
    ensures r.Some? ==> r.value < n && (r.value == i || r.value == i + n)
    ensures 0 <= i < n ==> r == Some(i)
  {
    if 0 <= i < n then Some(i) else if -(n as int) <= i < 0 then Some(i + n) else None
  }

  /**
    A swap exchanges the two positions, keeps every other position and
    keeps the shape of the grid.
   */
  lemma {:induction false} SwapExchanges(g: Grid, i: nat, j: nat, k: nat, l: nat)
    requires i < |g| && j < |g[i]| && k < |g| && l < |g[k]|
    ensures var g' := Swap(g, i, j, k, l);
      |g'| == |g| &&
      (forall r :: 0 <= r < |g| ==> |g'[r]| == |g[r]|) &&
      g'[i][j] == g[k][l] && g'[k][l] == g[i][j] &&
      (forall r, c :: 0 <= r < |g| && 0 <= c < |g[r]| && (r, c) != (i, j) && (r, c) != (k, l)
         ==> g'[r][c] == g[r][c])
  {
    var g1 := SetCell(g, i, j, g[k][l]);
    if (i, j) == (k, l) {
      assert g1[k][l] == g[i][j];
    }
  }

  /** Swapping the same two positions twice gives back the grid, exactly. */
  lemma {:induction false} SwapSelfInverse(g: Grid, i: nat, j: nat, k: nat, l: nat)
    requires i < |g| && j < |g[i]| && k < |g| && l < |g[k]|
    ensures var g' := Swap(g, i, j, k, l);
      i < |g'| && j < |g'[i]| && k < |g'| && l < |g'[k]| &&
      Swap(g', i, j, k, l) == g
  {
    var g' := Swap(g, i, j, k, l);
    SwapExchanges(g, i, j, k, l);
    SwapExchanges(g', i, j, k, l);
    var g'' := Swap(g', i, j, k, l);
    assert |g''| == |g|;
    forall r | 0 <= r < |g|
      ensures g''[r] == g[r]
    {
      assert |g''[r]| == |g[r]|;
      forall c | 0 <= c < |g[r]|
        ensures g''[r][c] == g[r][c]
      {
      }
    }
  }

  /** Replacing a column changes that column only. */
  lemma {:induction false} ColumnOfWithColumn(g: Grid, c: nat, col: seq<Slot>, c': nat)
    requires |col| == |g|
    requires forall r :: 0 <= r < |g| ==> c < |g[r]| && c' < |g[r]|
    ensures var g' := WithColumn(g, c, col);
      (forall r :: 0 <= r < |g'| ==> |g'[r]| == |g[r]|) &&
      Column(g', c') == if c' == c then col else Column(g, c')
  {
    var g' := WithColumn(g, c, col);
    if c' == c {
      assert Column(g', c') == col;
    } else {
      assert Column(g', c') == Column(g, c');
    }
  }

  /** Putting a column's own contents back changes nothing. */
  lemma {:induction false} WithOwnColumn(g: Grid, c: nat)
    requires forall r :: 0 <= r < |g| ==> c < |g[r]|
    ensures WithColumn(g, c, Column(g, c)) == g
  {
    var g' := WithColumn(g, c, Column(g, c));
    forall r | 0 <= r < |g|
      ensures g'[r] == g[r]
    {
      assert g'[r] == g[r][c := g[r][c]];
    }
  }

  /** Of two replacements of one column, the second wins. */
  lemma {:induction false} WithColumnTwice(g: Grid, c: nat, a: seq<Slot>, b: seq<Slot>)
    requires |a| == |g| && |b| == |g|
    requires forall r :: 0 <= r < |g| ==> c < |g[r]|
    ensures WithColumn(WithColumn(g, c, a), c, b) == WithColumn(g, c, b)
  {
    var g1 := WithColumn(g, c, a);
    var g2 := WithColumn(g1, c, b);
    forall r | 0 <= r < |g|
      ensures g2[r] == WithColumn(g, c, b)[r]
    {
      assert g2[r] == g[r][c := a[r]][c := b[r]];
      assert g[r][c := a[r]][c := b[r]] == g[r][c := b[r]];
    }
  }

  /** Writing one position of column c is replacing column c by an updated copy. */
  lemma {:induction false} SetCellInColumn(g: Grid, c: nat, col: seq<Slot>, r: nat, v: Slot)
    requires |col| == |g| && r < |g|
    requires forall r' :: 0 <= r' < |g| ==> c < |g[r']|
    ensures c < |WithColumn(g, c, col)[r]|
    ensures WithColumn(g, c, col)[r][c] == col[r]
    ensures SetCell(WithColumn(g, c, col), r, c, v) == WithColumn(g, c, col[r := v])
  {
    var g1 := SetCell(WithColumn(g, c, col), r, c, v);
    var g2 := WithColumn(g, c, col[r := v]);
    forall r' | 0 <= r' < |g|
      ensures g1[r'] == g2[r']
    {
      if r' == r {
        assert g1[r'] == g[r][c := col[r]][c := v];
        assert g[r][c := col[r]][c := v] == g[r][c := v];
      }
    }
  }
}
