/** The glider of the doc comment on `SetGliderAt` (glife/glife.go:25):
    on a large enough torus it moves one cell diagonally every four
    generations. Also the symmetry behind that travel: stepping commutes
    with moving the grid one cell diagonally. */
module Glider {
  import opened LifeRules

  // ---------------------------------------------------------------------------
  // The four phases of the glider placed at (0, 0).
  // ---------------------------------------------------------------------------

  /** Live cells of the glider `k` generations after `SetGliderAt(0, 0)`;
      phase 4 is phase 0 moved one row down and one column right. */
  predicate PhaseCell(k: nat, i: int, j: int) {
    if k == 0 then GliderCell(i, j)
    else if k == 1 then (i == 1 && (j == 0 || j == 2)) || (i == 2 && (j == 1 || j == 2)) || (i == 3 && j == 1)
    else if k == 2 then (i == 1 && j == 2) || (i == 2 && (j == 0 || j == 2)) || (i == 3 && (j == 1 || j == 2))
    else if k == 3 then (i == 1 && j == 1) || (i == 2 && (j == 2 || j == 3)) || (i == 3 && (j == 1 || j == 2))
    else GliderCell(i - 1, j - 1)
  }

  /** Phase `k`'s cell `(i, j)` as a count. */
  function Live(k: nat, i: int, j: int): nat {
    if PhaseCell(k, i, j) then 1 else 0
  }

  /** The `ny` x `nx` grid holding phase `k`. */
  function Phase(k: nat, ny: nat, nx: nat): (g: Grid)
    ensures IsGrid(g, ny, nx) && IsBinary(g)
    ensures forall i, j :: 0 <= i < ny && 0 <= j < nx ==> g[i][j] == Live(k, i, j)
  {
    seq(ny, i => seq(nx, j => if PhaseCell(k, i, j) then 1 else 0))
  }

  /** The eight wrapped neighbours of `(i, j)` in phase `k`, counted. */
  function Count(k: nat, ny: nat, nx: nat, i: int, j: int): nat
    requires 1 <= ny && 1 <= nx && 0 <= i < ny && 0 <= j < nx
  {
    var u, d, l, r := Wrap(i - 1, ny), Wrap(i + 1, ny), Wrap(j - 1, nx), Wrap(j + 1, nx);
    Live(k, u, l) + Live(k, u, j) + Live(k, u, r) + Live(k, i, l) + Live(k, i, r) +
    Live(k, d, l) + Live(k, d, j) + Live(k, d, r)
  }

  /** A wrapped read of the phase grid. */
  lemma AtPhase(k: nat, ny: nat, nx: nat, a: int, b: int)
    requires 1 <= ny && 1 <= nx && -1 <= a <= ny && -1 <= b <= nx
    ensures At(Phase(k, ny, nx), a, b) == Live(k, Wrap(a, ny), Wrap(b, nx))
  {
  }

  /** The neighbour count of the torus step on a phase grid. */
  lemma PhaseNeighbours(k: nat, ny: nat, nx: nat, i: int, j: int)
    requires 1 <= ny && 1 <= nx && 0 <= i < ny && 0 <= j < nx
    ensures Neighbours(Phase(k, ny, nx), i, j) == Count(k, ny, nx, i, j)
  {
    AtPhase(k, ny, nx, i - 1, j - 1);
    AtPhase(k, ny, nx, i - 1, j);
    AtPhase(k, ny, nx, i - 1, j + 1);
    AtPhase(k, ny, nx, i, j - 1);
    AtPhase(k, ny, nx, i, j + 1);
    AtPhase(k, ny, nx, i + 1, j - 1);
    AtPhase(k, ny, nx, i + 1, j);
    AtPhase(k, ny, nx, i + 1, j + 1);
  }

  /** B3/S23 takes every cell of phase `k` to the same cell of phase
      `k + 1`; the torus is large enough that the glider does not meet its
      own wrapped image. */
  lemma CellStep(k: nat, ny: nat, nx: nat, i: int, j: int)
    requires k < 4 && 6 <= ny && 6 <= nx && 0 <= i < ny && 0 <= j < nx
    ensures (Count(k, ny, nx, i, j) == 3 || (Count(k, ny, nx, i, j) == 2 && PhaseCell(k, i, j))) <==> PhaseCell(k + 1, i, j)
  {
  }

  /** One generation takes phase `k` to phase `k + 1`. */
  lemma PhaseStep(k: nat, ny: nat, nx: nat)
    requires k < 4 && 6 <= ny && 6 <= nx
    ensures Step(Phase(k, ny, nx)) == Phase(k + 1, ny, nx)
  {
    var g := Phase(k, ny, nx);
    forall i, j | 0 <= i < ny && 0 <= j < nx ensures Step(g)[i][j] == Phase(k + 1, ny, nx)[i][j] {
      StepRule(g, i, j);
      PhaseNeighbours(k, ny, nx, i, j);
      CellStep(k, ny, nx, i, j);
    }
    GridExt(Step(g), Phase(k + 1, ny, nx), ny, nx);
  }

  /** The starting grid is phase 0. */
  lemma SeedIsPhase(ny: nat, nx: nat)
    requires 3 <= ny && 3 <= nx
    ensures Seed(ny, nx) == Phase(0, ny, nx)
  {
    GridExt(Seed(ny, nx), Phase(0, ny, nx), ny, nx);
  }

  /** Four generations take the starting grid to phase 4. */
  lemma FourSteps(ny: nat, nx: nat)
    requires 6 <= ny && 6 <= nx
    ensures StepN(Seed(ny, nx), 4) == Phase(4, ny, nx)
  {
    var s := Seed(ny, nx);
    SeedIsPhase(ny, nx);
    PhaseStep(0, ny, nx);
    assert StepN(s, 1) == Phase(1, ny, nx);
    PhaseStep(1, ny, nx);
    assert StepN(s, 2) == Phase(2, ny, nx);
    PhaseStep(2, ny, nx);
    assert StepN(s, 3) == Phase(3, ny, nx);
    PhaseStep(3, ny, nx);
  }

  // ---------------------------------------------------------------------------
  // Moving a grid diagonally on the torus.
  // ---------------------------------------------------------------------------

  /** `g` moved one row down and one column right, both wrapping. */
  function Shifted(g: Grid): (r: Grid)
    requires Rect(g)
    ensures IsGrid(r, |g|, Width(g))
    ensures forall i, j :: 0 <= i < |g| && 0 <= j < Width(g) ==> r[i][j] == g[Wrap(i - 1, |g|)][Wrap(j - 1, Width(g))]
  {
    seq(|g|, i requires 0 <= i < |g| =>
      seq(Width(g), j requires 0 <= j < Width(g) => g[Wrap(i - 1, |g|)][Wrap(j - 1, Width(g))]))
  }

  /** Phase 4 is the starting grid moved one cell diagonally. */
  lemma PhaseShift(ny: nat, nx: nat)
    requires 6 <= ny && 6 <= nx
    ensures Phase(4, ny, nx) == Shifted(Seed(ny, nx))
  {
    SeedIsPhase(ny, nx);
    GridExt(Phase(4, ny, nx), Shifted(Seed(ny, nx)), ny, nx);
  }

  /** Wrapped offsets compose: moving by `a` then back by one is moving
      back by one then by `a`. */
  lemma WrapShift(i: int, a: int, n: int)
    requires 0 <= i < n && -1 <= a <= 1
    ensures Wrap(Wrap(i + a, n) - 1, n) == Wrap(Wrap(i - 1, n) + a, n)
  {
  }

  /** Moving keeps a grid 0/1. */
  lemma ShiftedBinary(g: Grid)
    requires Rect(g) && IsBinary(g)
    ensures IsBinary(Shifted(g))
  {
  }

  /** A wrapped read of the moved grid is a wrapped read of the grid. */
  lemma AtShifted(g: Grid, i: int, j: int, a: int, b: int)
    requires Rect(g) && 0 <= i < |g| && 0 <= j < Width(g) && -1 <= a <= 1 && -1 <= b <= 1
    ensures At(Shifted(g), i + a, j + b) == At(g, Wrap(i - 1, |g|) + a, Wrap(j - 1, Width(g)) + b)
  {
    WrapShift(i, a, |g|);
    WrapShift(j, b, Width(g));
  }

  /** The three wrapped reads in row `r` around column `j`. */
  function Row3(g: Grid, r: int, j: int): nat
    requires Rect(g) && 0 < |g| && 0 < Width(g) && -1 <= r <= |g| && 0 <= j < Width(g)
  {
    At(g, r, j - 1) as int + At(g, r, j) + At(g, r, j + 1)
  }

  /** The neighbour count as the rows above and below and the two cells
      beside. */
  lemma NeighboursRows(g: Grid, i: int, j: int)
    requires Rect(g) && 0 <= i < |g| && 0 <= j < Width(g)
    ensures Neighbours(g, i, j) == Row3(g, i - 1, j) + At(g, i, j - 1) + At(g, i, j + 1) + Row3(g, i + 1, j)
  {
  }

  /** The moved grid has the shape of the grid. */
  lemma ShiftedShape(g: Grid)
    requires Rect(g)
    ensures Rect(Shifted(g)) && |Shifted(g)| == |g| && Width(Shifted(g)) == Width(g)
  {
  }

  /** Three wrapped reads in row `i + a` of the moved grid are the three
      matching reads of the grid. */
  lemma RowShifted(g: Grid, i: int, j: int, a: int)
    requires Rect(g) && 0 <= i < |g| && 0 <= j < Width(g) && -1 <= a <= 1
    ensures Rect(Shifted(g)) && |Shifted(g)| == |g| && Width(Shifted(g)) == Width(g)
    ensures Row3(Shifted(g), i + a, j) == Row3(g, Wrap(i - 1, |g|) + a, Wrap(j - 1, Width(g)))
  {
    ShiftedShape(g);
    AtShifted(g, i, j, a, -1);
    AtShifted(g, i, j, a, 0);
    AtShifted(g, i, j, a, 1);
  }

  /** The rows above and below a cell of the moved grid are those of its
      source cell. */
  lemma RowsShifted(g: Grid, i: int, j: int)
    requires Rect(g) && 0 <= i < |g| && 0 <= j < Width(g)
    ensures Rect(Shifted(g)) && |Shifted(g)| == |g| && Width(Shifted(g)) == Width(g)
    ensures Row3(Shifted(g), i - 1, j) + Row3(Shifted(g), i + 1, j) ==
      Row3(g, Wrap(i - 1, |g|) - 1, Wrap(j - 1, Width(g))) + Row3(g, Wrap(i - 1, |g|) + 1, Wrap(j - 1, Width(g)))
  {
    RowShifted(g, i, j, -1);
    RowShifted(g, i, j, 1);
  }

  /** The two cells beside a cell of the moved grid are those beside its
      source cell. */
  lemma SidesShifted(g: Grid, i: int, j: int)
    requires Rect(g) && 0 <= i < |g| && 0 <= j < Width(g)
    ensures Rect(Shifted(g)) && |Shifted(g)| == |g| && Width(Shifted(g)) == Width(g)
    ensures At(Shifted(g), i, j - 1) as int + At(Shifted(g), i, j + 1) ==
      At(g, Wrap(i - 1, |g|), Wrap(j - 1, Width(g)) - 1) as int + At(g, Wrap(i - 1, |g|), Wrap(j - 1, Width(g)) + 1)
  {
    ShiftedShape(g);
    AtShifted(g, i, j, 0, -1);
    AtShifted(g, i, j, 0, 1);
  }

  /** A cell of the moved grid has the neighbours its source cell had. */
  lemma NeighboursShifted(g: Grid, i: int, j: int)
    requires Rect(g) && 0 <= i < |g| && 0 <= j < Width(g)
    ensures Neighbours(Shifted(g), i, j) == Neighbours(g, Wrap(i - 1, |g|), Wrap(j - 1, Width(g)))
  {
    ShiftedShape(g);
    var s, a, b := Shifted(g), Wrap(i - 1, |g|), Wrap(j - 1, Width(g));
    assert Neighbours(s, i, j) == Row3(s, i - 1, j) + At(s, i, j - 1) + At(s, i, j + 1) + Row3(s, i + 1, j) by {
      NeighboursRows(s, i, j);
    }
    assert Neighbours(g, a, b) == Row3(g, a - 1, b) + At(g, a, b - 1) + At(g, a, b + 1) + Row3(g, a + 1, b) by {
      NeighboursRows(g, a, b);
    }
    assert Row3(s, i - 1, j) + Row3(s, i + 1, j) == Row3(g, a - 1, b) + Row3(g, a + 1, b) by {
      RowsShifted(g, i, j);
    }
    assert At(s, i, j - 1) as int + At(s, i, j + 1) == At(g, a, b - 1) as int + At(g, a, b + 1) by {
      SidesShifted(g, i, j);
    }
  }

  /** The cell of the moved grid at `(i, j)`, and the cell of the moved
      stepped grid there, come from `(i - 1, j - 1)` wrapped. */
  lemma ShiftedSource(g: Grid, i: int, j: int)
    requires Rect(g) && 0 <= i < |g| && 0 <= j < Width(g)
    ensures Shifted(g)[i][j] == g[Wrap(i - 1, |g|)][Wrap(j - 1, Width(g))]
    ensures Shifted(Step(g))[i][j] == Step(g)[Wrap(i - 1, |g|)][Wrap(j - 1, Width(g))]
  {
  }

  /** A cell of the stepped moved grid is the moved cell of the stepped grid. */
  lemma CellShifted(g: Grid, i: int, j: int)
    requires Rect(g) && IsBinary(g) && 0 <= i < |g| && 0 <= j < Width(g)
    ensures Step(Shifted(g))[i][j] == Shifted(Step(g))[i][j]
  {
    var s := Shifted(g);
    var a, b := Wrap(i - 1, |g|), Wrap(j - 1, Width(g));
    ShiftedBinary(g);
    ShiftedSource(g, i, j);
    NeighboursShifted(g, i, j);
    var n := Neighbours(g, a, b);
    StepRule(s, i, j);
    assert Step(s)[i][j] == if n == 3 || (n == 2 && g[a][b] == 1) then 1 else 0;
    StepRule(g, a, b);
  }

  /** The torus step commutes with moving the grid diagonally. */
  lemma StepShifted(g: Grid)
    requires Rect(g) && IsBinary(g)
    ensures Step(Shifted(g)) == Shifted(Step(g))
  {
    forall i, j | 0 <= i < |g| && 0 <= j < Width(g) ensures Step(Shifted(g))[i][j] == Shifted(Step(g))[i][j] {
      CellShifted(g, i, j);
    }
    GridExt(Step(Shifted(g)), Shifted(Step(g)), |g|, Width(g));
  }

  // ---------------------------------------------------------------------------
  // The claim.
  // ---------------------------------------------------------------------------

  /** Four generations move the glider one cell diagonally. */
  lemma GliderMoves(ny: nat, nx: nat)
    requires 6 <= ny && 6 <= nx
    ensures StepN(Seed(ny, nx), 4) == Shifted(Seed(ny, nx))
  {
    FourSteps(ny, nx);
    PhaseShift(ny, nx);
  }
}
