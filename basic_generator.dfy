/**
  The basic icon generator's deterministic fill: `initialize(grid, False)`
  writes two alternating icon types along every row, and recomputes the
  pair of types on the rows where the alternation starts on the second
  type. The random branch is not part of this model.
 */
module Generators {
  import opened Board

  /** Python's `a % n` (floored): the result takes the sign of n. */
  function PyMod(a: int, n: int): (r: int)
    requires n != 0
    ensures n > 0 ==> 0 <= r < n
    ensures n < 0 ==> n < r <= 0
    ensures n > 0 ==> r == a % n
  {
    if n > 0 then a % n else -((-a) % (-n))
  }

  /**
    The value of `pattern` when row i is reached, before its flip: it
    starts False and flips once at the start of each row and once after
    each of the w cells of the row.
   */
  function PatternBefore(w: nat, i: nat): bool
  {
    if i == 0 then false
    else
      var s := !PatternBefore(w, i - 1);
      if w % 2 == 0 then s else !s
  }

  /** The value of `pattern` just after the flip at the start of row i. */
  function RowStart(w: nat, i: nat): bool
  {
    !PatternBefore(w, i)
  }

  /** The value of `pattern` when cell j of row i is written. */
  function CellPattern(w: nat, i: nat, j: nat): bool
  {
    if j % 2 == 0 then RowStart(w, i) else !RowStart(w, i)
  }

  /**
    The recomputation of the pair (icon1, icon2) with n types: the first
    type advances by one and skips the old second type; the second type
    is the one after the first.
   */
  function NextPair(icon1: int, icon2: int, n: int): (p: (int, int))
    requires n != 0
    ensures n >= 2 ==> 0 <= p.0 < n && 0 <= p.1 < n && p.0 != p.1
    ensures p.0 != icon2 || n == 1 || n == -1
  {
    var a := PyMod(icon1 + 1, n);
    var a' := if a == icon2 then PyMod(icon2 + 1, n) else a;
    var b := PyMod(a' + 1, n);
    var b' := if a' == b then PyMod(a' + 1, n) else b;
    (a', b')
  }

  /**
    The pair in force while row i is written, for n types and rows of
    width w; None when computing it divides by zero (n = 0 on a row that
    recomputes the pair).
   */
  function PairAt(n: int, w: nat, i: nat): Option<(int, int)>
    decreases i, 1
  {
    var prev := PairBefore(n, w, i);
    if prev.None? || RowStart(w, i) then prev
    else if n == 0 then None
    else Some(NextPair(prev.value.0, prev.value.1, n))
  }

  /** The pair in force when row i is reached: (0, 1) at the first row. */
  function PairBefore(n: int, w: nat, i: nat): Option<(int, int)>
    decreases i, 0
  {
    if i == 0 then Some((0, 1)) else PairAt(n, w, i - 1)
  }

  /** The icon written at row i, column j (None when no pair exists). */
  function StripeIcon(n: int, w: nat, i: nat, j: nat): Slot
  {
    match PairAt(n, w, i)
    case None => None
    case Some(p) => Some(if CellPattern(w, i, j) then p.0 else p.1)
  }

  /**
    The fill raises: the pair cannot be computed for some row, or a row
    is shorter than the first one (IndexError on assignment).
   */
  predicate Raises(n: int, grid: Grid)
  {
    |grid| > 0 &&
    (PairAt(n, |grid[0]|, |grid| - 1).None? ||
     exists r :: 0 <= r < |grid| && |grid[r]| < |grid[0]|)
  }

  /**
    Row i recomputes the pair exactly when the rows have even width and
    i is odd: with an odd width `pattern` is back to True at every row start.
   */
  lemma {:induction false} PatternIsFlipParity(w: nat, i: nat)
    ensures RowStart(w, i) <==> w % 2 == 1 || i % 2 == 0
    ensures forall j: nat :: CellPattern(w, i, j) <==> (RowStart(w, i) <==> j % 2 == 0)
  {
    if i > 0 {
      PatternIsFlipParity(w, i - 1);
    }
  }

  /** Once the pair cannot be computed, it cannot be computed for any later row. */
  lemma {:induction false} PairStaysNone(n: int, w: nat, i: nat, k: nat)
    requires i <= k && PairAt(n, w, i).None?
    ensures PairAt(n, w, k).None?
    decreases k - i
  {
    if i < k {
      PairStaysNone(n, w, i, k - 1);
    }
  }

  /**
    With at least two types the pair always exists, both its types are
    valid (in [0, n)) and they differ.
   */
  lemma {:induction false} PairInRange(n: int, w: nat, i: nat)
    requires n >= 2
    ensures PairAt(n, w, i).Some?
    ensures var p := PairAt(n, w, i).value; 0 <= p.0 < n && 0 <= p.1 < n && p.0 != p.1
  {
    if i > 0 {
      PairInRange(n, w, i - 1);
    }
  }

  /**
    With at least two types every written icon is a valid type and
    horizontally adjacent positions never share a type.
   */
  lemma {:induction false} RowAlternates(n: int, w: nat, i: nat, j: nat)
    requires n >= 2
    ensures StripeIcon(n, w, i, j).Some? && 0 <= StripeIcon(n, w, i, j).value < n
    ensures StripeIcon(n, w, i, j) != StripeIcon(n, w, i, j + 1)
  {
    PairInRange(n, w, i);
  }

  class BasicGenerator {
    /** The number of icon types handed out. */
    const numTypes: int

    constructor(numtypes: int)
      ensures numTypes == numtypes && GetJewelTypes() == numtypes
    {
      numTypes := numtypes;
    }

    /** The number of icon types the generator hands out. */
    function GetJewelTypes(): (n: int)
      ensures n == numTypes
    {
      numTypes
    }

    /**
      The inner loop of `initialize` on one row: the first w positions
      take icon1 and icon2 alternately, starting with icon1 when pattern
      is start, and pattern flips after each; a row shorter than w raises
      (None).
     */
    method StripeRow(row: seq<Slot>, w: nat, start: bool, icon1: int, icon2: int)
      returns (r: Option<seq<Slot>>, pattern: bool)
      ensures r.None? <==> |row| < w
      ensures r.Some? ==> pattern == if w % 2 == 0 then start else !start
      ensures r.Some? ==> |r.value| == |row|
      ensures r.Some? ==> forall c :: 0 <= c < |row| ==>
        r.value[c] == if c < w then Some(if (if c % 2 == 0 then start else !start) then icon1 else icon2) else row[c]
    {
      var x := row;
      pattern := start;
      var j := 0;
      while j < w
        invariant 0 <= j <= w && j <= |row| && |x| == |row|
        invariant pattern == if j % 2 == 0 then start else !start
        invariant forall c :: 0 <= c < |row| ==>
          x[c] == if c < j then Some(if (if c % 2 == 0 then start else !start) then icon1 else icon2) else row[c]
      {
        if j == |x| {
          return None, pattern;
        }
        x := x[j := Some(if pattern then icon1 else icon2)];
        pattern := !pattern;
        j := j + 1;
      }
      return Some(x), pattern;
    }

    /**
      `initialize(grid, False)`: returns the filled grid, or None when the
      fill raises. Every position (i, j) with j below the width of the
      first row gets the stripe icon; every other position is kept.
     */
    method Initialize(grid: Grid) returns (r: Option<Grid>)
      ensures r.None? <==> Raises(numTypes, grid)
      ensures r.Some? ==>
        |r.value| == |grid| &&
        (forall i :: 0 <= i < |grid| ==> |r.value[i]| == |grid[i]|) &&
        forall i, j :: 0 <= i < |grid| && 0 <= j < |grid[i]| ==>
          r.value[i][j] == if j < |grid[0]| then StripeIcon(numTypes, |grid[0]|, i, j) else grid[i][j]
    {
      if |grid| == 0 {
        return Some(grid);
      }
      var w := |grid[0]|;
      var g := grid;
      var pattern := false;
      var icon1 := 0;
      var icon2 := 1;
      var i := 0;
      while i < |grid|
        invariant 0 <= i <= |grid|
        invariant pattern == PatternBefore(w, i)
        invariant PairBefore(numTypes, w, i) == Some((icon1, icon2))
        invariant |g| == |grid| && forall r :: 0 <= r < |g| ==> |g[r]| == |grid[r]|
        invariant forall r :: 0 <= r < i ==> w <= |grid[r]|
        invariant forall r, c :: 0 <= r < i && 0 <= c < |g[r]| ==>
          g[r][c] == if c < w then StripeIcon(numTypes, w, r, c) else grid[r][c]
        invariant forall r :: i <= r < |g| ==> g[r] == grid[r]
      {
        pattern := !pattern;
        if !pattern {
          icon1 := icon1 + 1;
          var n := GetJewelTypes();
          if n == 0 {
            PairStaysNone(numTypes, w, i, |grid| - 1);
            return None;
          }
          icon1 := PyMod(icon1, n);
          if icon1 == icon2 {
            icon1 := PyMod(icon2 + 1, n);
          }
          icon2 := PyMod(icon1 + 1, n);
          if icon1 == icon2 {
            icon2 := PyMod(icon1 + 1, n);
          }
        }
        assert PairAt(numTypes, w, i) == Some((icon1, icon2));
        var row;
        row, pattern := StripeRow(g[i], w, pattern, icon1, icon2);
        if row.None? {
          return None;
        }
        g := g[i := row.value];
        i := i + 1;
      }
      return Some(g);
    }
  }
}
