/** The reference simulator of glife/glife.go: a single universe whose rows
    and columns both wrap around (a torus). */
module Glife {
  import opened LifeRules

  /** The domain where life happens: `ny` rows of `nx` cells, updated in place. */
  class Universe {
    const nx: nat
    const ny: nat
    const cells: array2<Byte>

    /** The buffer has the declared shape. */
    predicate Valid() {
      cells.Length0 == ny && cells.Length1 == nx
    }

    /** The cells, row by row. */
    function Cells(): (g: Grid)
      reads cells
      ensures IsGrid(g, cells.Length0, cells.Length1)
    {
      Contents(cells)
    }

    /** Allocates `ny` rows of `nx` cells, all dead. */
    constructor Make(nx: nat, ny: nat)
      ensures this.nx == nx && this.ny == ny && Valid() && fresh(cells)
      ensures Cells() == Zero(ny, nx)
    {
      var a := new Byte[ny, nx];
      var i := 0;
      while i < ny
        invariant 0 <= i <= ny
        invariant forall r, c :: 0 <= r < i && 0 <= c < nx ==> a[r, c] == 0
      {
        var j := 0;
        while j < nx
          invariant 0 <= j <= nx
          invariant forall r, c :: 0 <= r < i && 0 <= c < nx ==> a[r, c] == 0
          invariant forall c :: 0 <= c < j ==> a[i, c] == 0
        {
          a[i, j] := 0;
          j := j + 1;
        }
        i := i + 1;
      }
      this.nx := nx;
      this.ny := ny;
      cells := a;
      GridExt(Contents(a), Zero(ny, nx), ny, nx);
    }

    /** Writes the five cells of a glider anchored at `(i, j)`; an index out
        of range is a run-time panic in the source, so the glider must fit. */
    method SetGliderAt(i: nat, j: nat)
      requires Valid() && i + 2 < ny && j + 2 < nx
      modifies cells
      ensures Cells() == PlaceGlider(old(Cells()), i, j)
    {
      ghost var g := Cells();
      cells[i, j + 1] := 1;
      cells[i + 1, j + 2] := 1;
      cells[i + 2, j] := 1;
      cells[i + 2, j + 1] := 1;
      cells[i + 2, j + 2] := 1;
      assert forall r, c :: 0 <= r < ny && 0 <= c < nx ==>
        cells[r, c] == if GliderCell(r - i, c - j) then 1 else g[r][c];
      PlaceGliderCells(g, i, j);
      GridExt(Cells(), PlaceGlider(g, i, j), ny, nx);
    }

    /** Copies every cell into `nu`; this universe is not changed. */
    method CopyCellsTo(nu: Universe)
      requires Valid() && nu.Valid() && nu.ny == ny && nu.nx == nx
      modifies nu.cells
      ensures nu.Cells() == old(Cells())
      ensures Cells() == old(Cells())
    {
      var i := 0;
      while i < ny
        invariant 0 <= i <= ny
        invariant forall r, c :: 0 <= r < ny && 0 <= c < nx ==> cells[r, c] == old(cells[r, c])
        invariant forall r, c :: 0 <= r < i && 0 <= c < nx ==> nu.cells[r, c] == old(cells[r, c])
      {
        var j := 0;
        while j < nx
          invariant 0 <= j <= nx
          invariant forall r, c :: 0 <= r < ny && 0 <= c < nx ==> cells[r, c] == old(cells[r, c])
          invariant forall r, c :: 0 <= r < i && 0 <= c < nx ==> nu.cells[r, c] == old(cells[r, c])
          invariant forall c :: 0 <= c < j ==> nu.cells[i, c] == old(cells[i, c])
        {
          nu.cells[i, j] := cells[i, j];
          j := j + 1;
        }
        i := i + 1;
      }
      GridExt(nu.Cells(), old(Cells()), ny, nx);
      GridExt(Cells(), old(Cells()), ny, nx);
    }

    /** Adds the three cells of row `r` around column `j`, with the column
        wrapped, to the 8-bit counter `n0`. */
    method AddRow(r: nat, j: nat, n0: Byte) returns (n: Byte)
      requires Valid() && r < ny && j < nx
      ensures n == U8(n0 + RowSum(Cells()[r], j, j + 2))
    {
      ghost var row := Cells()[r];
      n := n0;
      var j1 := j - 1;
      while j1 <= j + 1
        invariant j - 1 <= j1 <= j + 2
        invariant n == U8(n0 + RowSum(row, j, j1))
      {
        assert cells[r, Wrap(j1, nx)] == row[Wrap(j1, nx)];
        U8Add(n0 + RowSum(row, j, j1), cells[r, Wrap(j1, nx)]);
        n := U8(n + cells[r, Wrap(j1, nx)]);
        j1 := j1 + 1;
      }
    }

    /** The 3x3 sum around `(i, j)` with both indices wrapped, accumulated in
        the 8-bit counter `n` of the source. */
    method SumAround(i: nat, j: nat) returns (n: Byte)
      requires Valid() && i < ny && j < nx
      ensures n == U8(WindowSum(TorusWindow(Cells(), i), j, 3))
    {
      ghost var w := TorusWindow(Cells(), i);
      n := 0;
      var i1 := i - 1;
      while i1 <= i + 1
        invariant i - 1 <= i1 <= i + 2
        invariant n == U8(WindowSum(w, j, i1 - i + 1))
      {
        assert w[i1 - i + 1] == Cells()[Wrap(i1, ny)];
        U8Add(WindowSum(w, j, i1 - i + 1), 0);
        n := AddRow(Wrap(i1, ny), j, n);
        U8Add(WindowSum(w, j, i1 - i + 1), RowSum(w[i1 - i + 1], j, j + 2));
        i1 := i1 + 1;
      }
    }

    /** The state of cell `(i, j)` in the next generation: the counter is
        the 3x3 sum minus the cell, and the cell is alive iff the counter is
        3, or 2 and the cell is alive. */
    method NextState(i: nat, j: nat) returns (v: Byte)
      requires Valid() && i < ny && j < nx
      ensures v == Step(Cells())[i][j]
    {
      ghost var g := Cells();
      var n := SumAround(i, j);
      n := U8(n - cells[i, j]);
      v := 0;
      if n == 3 || (n == 2 && cells[i, j] > 0) {
        v := 1;
      }
      StepCounter(g, i, j);
    }

    /** Writes the next generation of row `i` into row `i` of `nu`; the
        other rows of `nu` and this universe are not changed. */
    method EvolveRowTo(nu: Universe, i: nat)
      requires Valid() && nu.Valid() && nu.ny == ny && nu.nx == nx && nu.cells != cells && i < ny
      modifies nu.cells
      ensures forall c :: 0 <= c < nx ==> nu.cells[i, c] == Step(Cells())[i][c]
      ensures forall r, c :: 0 <= r < ny && r != i && 0 <= c < nx ==> nu.cells[r, c] == old(nu.cells[r, c])
    {
      ghost var g := Cells();
      var j := 0;
      while j < nx
        invariant 0 <= j <= nx
        invariant unchanged(cells)
        invariant forall c :: 0 <= c < j ==> nu.cells[i, c] == Step(g)[i][c]
        invariant forall r, c :: 0 <= r < ny && r != i && 0 <= c < nx ==> nu.cells[r, c] == old(nu.cells[r, c])
      {
        var v := NextState(i, j);
        assert Cells() == g;
        nu.cells[i, j] := v;
        j := j + 1;
      }
      assert Cells() == g;
    }

    /** Writes the next generation of every cell into `nu`: alive iff the
        live-neighbour count is 3, or 2 and the cell is alive; this universe
        is not changed. */
    method EvolveOneGenerationTo(nu: Universe)
      requires Valid() && nu.Valid() && nu.ny == ny && nu.nx == nx && nu.cells != cells
      modifies nu.cells
      ensures nu.Cells() == Step(old(Cells()))
      ensures Cells() == old(Cells())
    {
      ghost var g := Cells();
      ghost var s := Step(g);
      var i := 0;
      while i < ny
        invariant 0 <= i <= ny
        invariant unchanged(cells)
        invariant forall r, c :: 0 <= r < i && 0 <= c < nx ==> nu.cells[r, c] == s[r][c]
      {
        EvolveRowTo(nu, i);
        assert Cells() == g;
        i := i + 1;
      }
      GridExt(nu.Cells(), s, ny, nx);
    }
  }

  /** The simulation of `life`: a glider at (0, 0) of an empty `ny` x `nx`
      torus, then `ns` rounds of evolving into the second universe and
      copying back. Returns the final grid, which the source prints. */
  method Life(nx: nat, ny: nat, ns: nat) returns (g: Grid)
    requires 3 <= nx && 3 <= ny
    ensures g == StepN(Seed(ny, nx), ns)
  {
    var current := new Universe.Make(nx, ny);
    var next := new Universe.Make(nx, ny);
    current.SetGliderAt(0, 0);
    var i := 0;
    while i < ns
      invariant 0 <= i <= ns
      invariant current.Cells() == StepN(Seed(ny, nx), i)
    {
      current.EvolveOneGenerationTo(next);
      next.CopyCellsTo(current);
      i := i + 1;
    }
    g := current.Cells();
  }
}
