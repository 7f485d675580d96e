/** Cells, grids and the B3/S23 transition rule shared by the reference
    (toroidal) simulator and the partitioned (strip with halo rows) one. */
module LifeRules {

  /** A cell as the program stores it: an unsigned 8-bit value, 0 = dead, 1 = alive. */
  type Byte = x: int | 0 <= x < 256

  /** A grid is a sequence of rows of cells. */
  type Grid = seq<seq<Byte>>

  /** `g` has `ny` rows of `nx` cells each. */
  predicate IsGrid(g: Grid, ny: int, nx: int) {
    |g| == ny && forall i :: 0 <= i < |g| ==> |g[i]| == nx
  }

  /** Width of the first row (0 for an empty grid). */
  function Width(g: Grid): nat {
    if |g| == 0 then 0 else |g[0]|
  }

  /** All rows of `g` have the same width. */
  predicate Rect(g: Grid) {
    IsGrid(g, |g|, Width(g))
  }

  /** Every cell of `g` is 0 or 1. */
  predicate IsBinary(g: Grid) {
    forall i, j :: 0 <= i < |g| && 0 <= j < |g[i]| ==> g[i][j] <= 1
  }

  /** The contents of a two-dimensional cell buffer, row by row. */
  function Contents(a: array2<Byte>): (g: Grid)
    reads a
    ensures IsGrid(g, a.Length0, a.Length1)
    ensures forall i, j :: 0 <= i < a.Length0 && 0 <= j < a.Length1 ==> g[i][j] == a[i, j]
  {
    seq(a.Length0, i requires 0 <= i < a.Length0 reads a =>
      seq(a.Length1, j requires 0 <= j < a.Length1 reads a => a[i, j]))
  }

  /** Two grids of the same shape with equal cells are equal. */
  lemma GridExt(a: Grid, b: Grid, ny: int, nx: int)
    requires IsGrid(a, ny, nx) && IsGrid(b, ny, nx)
    requires forall i, j :: 0 <= i < ny && 0 <= j < nx ==> a[i][j] == b[i][j]
    ensures a == b
  {
    forall i | 0 <= i < ny ensures a[i] == b[i] {
      assert forall j :: 0 <= j < nx ==> a[i][j] == b[i][j];
    }
  }

  /** `x % n` for `0 <= x <= 2n`. */
  lemma ModTwice(x: int, n: int)
    requires 0 < n && 0 <= x <= 2 * n
    ensures x % n == if x < n then x else if x < 2 * n then x - n else 0
  {
    if x < n {
      assert x % n == x;
    } else if x < 2 * n {
      assert x % n == x - n;
    } else {
      assert x % n == 0;
    }
  }

  /** `x` stored into a Go `uint8`: arithmetic modulo 256. */
  function U8(x: int): Byte {
    x % 256
  }

  /** An 8-bit counter holding a sum below 256, minus a part of that sum, does not wrap. */
  lemma CounterNoWrap(s: int, c: int)
    requires 0 <= c <= s < 256
    ensures U8(U8(s) - c) == s - c
  {
    assert s % 256 == s;
    assert (s - c) % 256 == s - c;
  }

  /** A counter that has added `n + c` (below 256) and then subtracted `c` holds `n`. */
  lemma CounterValue(s: int, c: int, n: int)
    requires 0 <= c && 0 <= n && s == n + c && s < 256
    ensures U8(U8(s) - c) == n
  {
    CounterNoWrap(s, c);
  }

  /** `U8(U8(a) + x)` is `U8(a + x)`: an 8-bit accumulator tracks the sum modulo 256. */
  lemma U8Add(a: int, x: int)
    ensures U8(U8(a) + x) == U8(a + x)
  {
  }

  /** The periodic index `(k + n) % n` used on both axes of the torus, for
      the neighbour indices `k` in `-1 .. n`. The operand is never negative,
      so Go's truncating `%` and Dafny's agree. */
  function Wrap(k: int, n: int): (r: int)
    requires 0 < n && -1 <= k <= n
    ensures 0 <= r < n
    ensures 0 <= k < n ==> r == k
    ensures k == -1 ==> r == n - 1
    ensures k == n ==> r == 0
  {
    ModTwice(k + n, n);
    (k + n) % n
  }

  /** The all-dead grid of `ny` rows and `nx` columns. */
  function Zero(ny: nat, nx: nat): (g: Grid)
    ensures IsGrid(g, ny, nx) && IsBinary(g)
    ensures forall i, j :: 0 <= i < ny && 0 <= j < nx ==> g[i][j] == 0
  {
    seq(ny, _ => seq(nx, _ => 0))
  }

  // ---------------------------------------------------------------------------
  // The 3x3 neighbourhood sum, as the four nested loops accumulate it.
  // ---------------------------------------------------------------------------

  /** Three rows of equal width: the rows above, at and below a cell row. */
  predicate IsWindow(w: Grid) {
    |w| == 3 && |w[1]| == |w[0]| && |w[2]| == |w[0]|
  }

  /** Sum of `r[(j1 + nx) % nx]` for `j1` from `j - 1` up to `upto - 1`:
      what the innermost loop has added after it reached `j1 == upto`. */
  function RowSum(r: seq<Byte>, j: int, upto: int): nat
    requires 0 <= j < |r| && j - 1 <= upto <= j + 2
    decreases upto - j
  {
    if upto == j - 1 then 0 else RowSum(r, j, upto - 1) + r[Wrap(upto - 1, |r|)]
  }

  /** Sum over the first `k` rows of the window of the three wrapped cells
      around column `j`: what the row loop has added after `k` rows. */
  function WindowSum(w: Grid, j: int, k: nat): nat
    requires IsWindow(w) && 0 <= j < |w[1]| && k <= 3
  {
    if k == 0 then 0 else WindowSum(w, j, k - 1) + RowSum(w[k - 1], j, j + 2)
  }

  /** The live-neighbour counter `n` of the source: the nine cells are added
      into an 8-bit counter, then the centre cell is subtracted from it, both
      with 8-bit wrap-around. */
  function LiveCount(w: Grid, j: int): Byte
    requires IsWindow(w) && 0 <= j < |w[1]|
  {
    U8(U8(WindowSum(w, j, 3)) - w[1][j])
  }

  /** The transition rule on a cell and its counter: the next state is 0
      or 1, and 1 exactly for a counter of 3, or of 2 on a live cell. */
  function Rule(alive: Byte, n: Byte): (r: Byte)
    ensures r <= 1
    ensures r == 1 <==> n == 3 || (n == 2 && alive > 0)
  {
    if n == 3 || (n == 2 && alive > 0) then 1 else 0
  }

  /** Next state of the cell in column `j` of the middle row of window `w`. */
  function NextCell(w: Grid, j: int): Byte
    requires IsWindow(w) && 0 <= j < |w[1]|
  {
    Rule(w[1][j], LiveCount(w, j))
  }

  /** Next state of the whole middle row of window `w`. */
  function NextRow(w: Grid): (r: seq<Byte>)
    requires IsWindow(w)
    ensures |r| == |w[1]|
    ensures forall j :: 0 <= j < |r| ==> r[j] <= 1
  {
    seq(|w[1]|, j requires 0 <= j < |w[1]| => NextCell(w, j))
  }

  /** The eight neighbours of column `j` of the middle row, columns wrapped. */
  function WindowNeighbours(w: Grid, j: int): nat
    requires IsWindow(w) && 0 <= j < |w[1]|
  {
    var nx := |w[1]|;
    w[0][Wrap(j - 1, nx)] as int + w[0][j] + w[0][Wrap(j + 1, nx)] +
    w[1][Wrap(j - 1, nx)] + w[1][Wrap(j + 1, nx)] +
    w[2][Wrap(j - 1, nx)] + w[2][j] + w[2][Wrap(j + 1, nx)]
  }

  /** The three cells of row `r` around column `j`, columns wrapped. */
  function Triple(r: seq<Byte>, j: int): nat
    requires 0 <= j < |r|
  {
    r[Wrap(j - 1, |r|)] as int + r[j] + r[Wrap(j + 1, |r|)]
  }

  /** On a 0/1 row the three cells sum to at most 3, and the two beside the centre to at most 2. */
  lemma TripleBound(r: seq<Byte>, j: int)
    requires 0 <= j < |r| && forall c :: 0 <= c < |r| ==> r[c] <= 1
    ensures Triple(r, j) <= 3 && Triple(r, j) - r[j] <= 2
  {
    assert r[Wrap(j - 1, |r|)] <= 1 && r[Wrap(j + 1, |r|)] <= 1;
  }

  /** The inner loop over `j1 = j-1 .. j+1` adds exactly the three wrapped cells. */
  lemma RowSumThree(r: seq<Byte>, j: int)
    requires 0 <= j < |r|
    ensures RowSum(r, j, j + 2) == Triple(r, j)
  {
    assert RowSum(r, j, j - 1) == 0;
    assert RowSum(r, j, j) == r[Wrap(j - 1, |r|)];
    assert RowSum(r, j, j + 1) == RowSum(r, j, j) + r[j];
  }

  /** The row loop adds the three row sums of the window. */
  lemma WindowSumRows(w: Grid, j: int)
    requires IsWindow(w) && 0 <= j < |w[1]|
    ensures WindowSum(w, j, 3) == RowSum(w[0], j, j + 2) + RowSum(w[1], j, j + 2) + RowSum(w[2], j, j + 2)
  {
    assert WindowSum(w, j, 1) == RowSum(w[0], j, j + 2);
    assert WindowSum(w, j, 2) == WindowSum(w, j, 1) + RowSum(w[1], j, j + 2);
  }

  /** Three row triples are the eight neighbours plus the centre. */
  lemma TriplesSplit(w: Grid, j: int, s: int)
    requires IsWindow(w) && 0 <= j < |w[1]|
    requires s == Triple(w[0], j) + Triple(w[1], j) + Triple(w[2], j)
    ensures s == WindowNeighbours(w, j) + w[1][j]
  {
  }

  /** The nine-cell sum is the centre plus its eight neighbours. */
  lemma WindowSumSplit(w: Grid, j: int)
    requires IsWindow(w) && 0 <= j < |w[1]|
    ensures WindowSum(w, j, 3) == WindowNeighbours(w, j) + w[1][j]
  {
    WindowSumRows(w, j);
    RowSumThree(w[0], j);
    RowSumThree(w[1], j);
    RowSumThree(w[2], j);
    TriplesSplit(w, j, Triple(w[0], j) + Triple(w[1], j) + Triple(w[2], j));
  }

  /** On 0/1 cells the nine-cell sum is at most 9 and the centre plus at most 8 neighbours. */
  lemma WindowBound(w: Grid, j: int)
    requires IsWindow(w) && IsBinary(w) && 0 <= j < |w[1]|
    ensures WindowSum(w, j, 3) == WindowNeighbours(w, j) + w[1][j]
    ensures WindowSum(w, j, 3) <= 9 && WindowNeighbours(w, j) <= 8
  {
    TripleBound(w[0], j);
    TripleBound(w[1], j);
    TripleBound(w[2], j);
    WindowSumSplit(w, j);
    TriplesSplit(w, j, Triple(w[0], j) + Triple(w[1], j) + Triple(w[2], j));
  }

  /** When the nine-cell sum fits in the counter, the counter ends up holding
      exactly the number of neighbours. */
  lemma CounterIsNeighbours(w: Grid, j: int)
    requires IsWindow(w) && 0 <= j < |w[1]|
    requires WindowSum(w, j, 3) == WindowNeighbours(w, j) + w[1][j]
    requires WindowSum(w, j, 3) < 256
    ensures LiveCount(w, j) == WindowNeighbours(w, j)
  {
    var s, c, n := WindowSum(w, j, 3), w[1][j], WindowNeighbours(w, j);
    CounterValue(s, c, n);
    calc {
      LiveCount(w, j);
      U8(U8(s) - c);
      n;
    }
  }

  /** On 0/1 cells the 8-bit counter never wraps: the nine-cell sum is at
      most 9, the counter equals the number of live neighbours (0..8), and
      the cell is alive next iff that number is 3, or it is 2 and the cell is
      alive now. */
  lemma WindowRule(w: Grid, j: int)
    requires IsWindow(w) && IsBinary(w) && 0 <= j < |w[1]|
    ensures WindowSum(w, j, 3) <= 9
    ensures WindowNeighbours(w, j) <= 8
    ensures LiveCount(w, j) == WindowNeighbours(w, j)
    ensures NextCell(w, j) ==
      (if WindowNeighbours(w, j) == 3 || (WindowNeighbours(w, j) == 2 && w[1][j] == 1) then 1 else 0)
  {
    WindowBound(w, j);
    CounterIsNeighbours(w, j);
  }

  // ---------------------------------------------------------------------------
  // The reference step: a torus, rows and columns both wrap.
  // ---------------------------------------------------------------------------

  /** Rows `i-1`, `i`, `i+1` of `g`, each taken at `(i1 + ny) % ny`. */
  function TorusWindow(g: Grid, i: int): (w: Grid)
    requires Rect(g) && 0 <= i < |g|
    ensures IsWindow(w) && |w[1]| == Width(g)
  {
    [g[Wrap(i - 1, |g|)], g[Wrap(i, |g|)], g[Wrap(i + 1, |g|)]]
  }

  /** One generation on the torus. */
  function Step(g: Grid): (r: Grid)
    requires Rect(g)
    ensures IsGrid(r, |g|, Width(g)) && IsBinary(r)
  {
    seq(|g|, i requires 0 <= i < |g| => NextRow(TorusWindow(g, i)))
  }

  /** `k` generations on the torus. */
  function StepN(g: Grid, k: nat): (r: Grid)
    requires Rect(g)
    ensures IsGrid(r, |g|, Width(g))
  {
    if k == 0 then g else Step(StepN(g, k - 1))
  }

  /** Cell `(i, j)` of the torus, both indices wrapped. */
  function At(g: Grid, i: int, j: int): Byte
    requires Rect(g) && 0 < |g| && 0 < Width(g) && -1 <= i <= |g| && -1 <= j <= Width(g)
  {
    g[Wrap(i, |g|)][Wrap(j, Width(g))]
  }

  /** The eight Moore neighbours of `(i, j)` on the torus. */
  function Neighbours(g: Grid, i: int, j: int): nat
    requires Rect(g) && 0 <= i < |g| && 0 <= j < Width(g)
  {
    At(g, i - 1, j - 1) as int + At(g, i - 1, j) + At(g, i - 1, j + 1) +
    At(g, i, j - 1) + At(g, i, j + 1) +
    At(g, i + 1, j - 1) + At(g, i + 1, j) + At(g, i + 1, j + 1)
  }

  /** Cell `(i, j)` of the next generation is the rule applied to the cell
      and to the 8-bit counter: the wrapped nine-cell sum minus the cell,
      modulo 256. */
  lemma StepCounter(g: Grid, i: int, j: int)
    requires Rect(g) && 0 <= i < |g| && 0 <= j < Width(g)
    ensures Step(g)[i][j] == Rule(g[i][j], U8(U8(WindowSum(TorusWindow(g, i), j, 3)) - g[i][j]))
  {
    var w := TorusWindow(g, i);
    assert w[1][j] == g[i][j];
  }

  /** B3/S23 on the torus: a cell of a 0/1 grid is alive in the next
      generation iff it has exactly three live neighbours, or two and is
      alive; neighbours wrap on both axes, and the count is at most 8. */
  lemma StepRule(g: Grid, i: int, j: int)
    requires Rect(g) && IsBinary(g) && 0 <= i < |g| && 0 <= j < Width(g)
    ensures Neighbours(g, i, j) <= 8
    ensures Step(g)[i][j] ==
      (if Neighbours(g, i, j) == 3 || (Neighbours(g, i, j) == 2 && g[i][j] == 1) then 1 else 0)
  {
    var w := TorusWindow(g, i);
    assert IsBinary(w) by {
      forall r, c | 0 <= r < 3 && 0 <= c < |w[r]| ensures w[r][c] <= 1 {
        assert w[r] == g[Wrap(i - 1 + r, |g|)];
      }
    }
    WindowRule(w, j);
    assert WindowNeighbours(w, j) == Neighbours(g, i, j);
  }

  // ---------------------------------------------------------------------------
  // The strip step: rows are read directly, the halo rows supply the y-wrap.
  // ---------------------------------------------------------------------------

  /** One generation of the real rows `1 .. |p|-2` of a strip `p` whose first
      and last rows are halo rows; result row `k` is physical row `k + 1`. */
  function StepStrip(p: Grid): (r: Grid)
    requires Rect(p) && 2 <= |p|
    ensures IsGrid(r, |p| - 2, Width(p)) && IsBinary(r)
  {
    seq(|p| - 2, k requires 0 <= k < |p| - 2 => NextRow(p[k..k + 3]))
  }

  /** A strip cell's next state from the 8-bit counter of its nine-cell sum. */
  lemma StripCounter(p: Grid, i: int, j: int)
    requires Rect(p) && 1 <= i < |p| - 1 && 0 <= j < Width(p)
    ensures StepStrip(p)[i - 1][j] == Rule(p[i][j], U8(U8(WindowSum(p[i - 1..i + 2], j, 3)) - p[i][j]))
  {
    var w := p[i - 1..i + 2];
    assert StepStrip(p)[i - 1] == NextRow(w);
    assert w[1][j] == p[i][j];
  }

  /** The eight neighbours of physical cell `(i, j)` of a strip: rows
      `i-1 .. i+1` taken as they are, columns wrapped. */
  function StripNeighbours(p: Grid, i: int, j: int): nat
    requires Rect(p) && 1 <= i < |p| - 1 && 0 <= j < Width(p)
  {
    var nx := Width(p);
    p[i - 1][Wrap(j - 1, nx)] as int + p[i - 1][j] + p[i - 1][Wrap(j + 1, nx)] +
    p[i][Wrap(j - 1, nx)] + p[i][Wrap(j + 1, nx)] +
    p[i + 1][Wrap(j - 1, nx)] + p[i + 1][j] + p[i + 1][Wrap(j + 1, nx)]
  }

  /** B3/S23 on a strip: real row `i` (physical) is computed from rows
      `i-1 .. i+1`, which stay inside the padded strip, with only the
      columns wrapping. */
  lemma StepStripRule(p: Grid, i: int, j: int)
    requires Rect(p) && IsBinary(p) && 1 <= i < |p| - 1 && 0 <= j < Width(p)
    ensures StripNeighbours(p, i, j) <= 8
    ensures StepStrip(p)[i - 1][j] ==
      (if StripNeighbours(p, i, j) == 3 || (StripNeighbours(p, i, j) == 2 && p[i][j] == 1) then 1 else 0)
  {
    var w := p[i - 1..i + 2];
    assert w[0] == p[i - 1] && w[1] == p[i] && w[2] == p[i + 1];
    WindowRule(w, j);
    assert WindowNeighbours(w, j) == StripNeighbours(p, i, j);
  }

  // ---------------------------------------------------------------------------
  // The glider.
  // ---------------------------------------------------------------------------

  /** `g` with cell `(r, c)` set to 1. */
  function Set(g: Grid, r: int, c: int): Grid
    requires 0 <= r < |g| && 0 <= c < |g[r]|
  {
    g[r := g[r][c := 1]]
  }

  /** The five writes of `SetGliderAt`, in the source's order, anchored at row `i`. */
  function PlaceGlider(g: Grid, i: int, j: int): (p: Grid)
    requires Rect(g) && 0 <= i && i + 2 < |g| && 0 <= j && j + 2 < Width(g)
    ensures |p| == |g|
  {
    Set(Set(Set(Set(Set(g, i, j + 1), i + 1, j + 2), i + 2, j), i + 2, j + 1), i + 2, j + 2)
  }

  /** Offsets `(dr, dc)` of the glider's live cells from its anchor. */
  predicate GliderCell(dr: int, dc: int) {
    (dr == 0 && dc == 1) || (dr == 1 && dc == 2) || (dr == 2 && 0 <= dc <= 2)
  }

  /** Placing the glider sets exactly its five cells to 1 and keeps every
      other cell, and the shape of the grid. */
  lemma PlaceGliderCells(g: Grid, i: int, j: int)
    requires Rect(g) && 0 <= i && i + 2 < |g| && 0 <= j && j + 2 < Width(g)
    ensures IsGrid(PlaceGlider(g, i, j), |g|, Width(g))
    ensures forall r, c :: 0 <= r < |g| && 0 <= c < Width(g) ==>
      PlaceGlider(g, i, j)[r][c] == if GliderCell(r - i, c - j) then 1 else g[r][c]
  {
  }

  /** The grid the simulations start from: a glider at `(0, 0)` on an empty grid. */
  function Seed(ny: nat, nx: nat): (g: Grid)
    requires 3 <= ny && 3 <= nx
    ensures IsGrid(g, ny, nx) && IsBinary(g)
    ensures forall r, c :: 0 <= r < ny && 0 <= c < nx ==> g[r][c] == if GliderCell(r, c) then 1 else 0
  {
    PlaceGliderCells(Zero(ny, nx), 0, 0);
    PlaceGlider(Zero(ny, nx), 0, 0)
  }
}
