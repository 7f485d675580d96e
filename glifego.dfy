/** The partitioned simulator of glifego/glifego.go: the torus is cut into
    horizontal strips, one per worker; each worker keeps its strip between
    two halo rows that hold its neighbours' edge rows, so that rows are
    read directly and only the columns wrap. */
module Glifego {
  import opened LifeRules
  import opened Ring

  /** Physical row of real row 0: row 0 of a buffer is the top halo row. */
  const OffSet: nat := 1

  /** `p` with its real rows (all but the first and the last) replaced by `rows`. */
  function WithReal(p: Grid, rows: Grid): (q: Grid)
    requires 2 <= |p|
    ensures |q| == |rows| + 2 && q[0] == p[0] && q[|q| - 1] == p[|p| - 1]
    ensures q[1..|q| - 1] == rows
  {
    [p[0]] + rows + [p[|p| - 1]]
  }

  /** `p` with its halo rows (the first and the last) replaced by `top` and `bottom`. */
  function WithHalos(p: Grid, top: seq<Byte>, bottom: seq<Byte>): (q: Grid)
    requires 2 <= |p|
    ensures |q| == |p| && q[0] == top && q[|q| - 1] == bottom
    ensures q[1..|q| - 1] == p[1..|p| - 1]
  {
    [top] + p[1..|p| - 1] + [bottom]
  }

  /** Copying real rows over a buffer twice leaves what copying once left. */
  lemma WithRealIdempotent(p: Grid, rows: Grid)
    requires 2 <= |p|
    ensures WithReal(WithReal(p, rows), rows) == WithReal(p, rows)
  {
  }

  /** Writing back a buffer's own real rows leaves it as it is. */
  lemma WithRealOwn(p: Grid)
    requires 2 <= |p|
    ensures WithReal(p, p[1..|p| - 1]) == p
  {
    assert p == [p[0]] + p[1..|p| - 1] + [p[|p| - 1]];
  }

  /** A glider placed three or more rows above the last row of a buffer
      lies in its real rows: placing it on the buffer is placing it on the
      real rows, one row further down, and keeping the halo rows. */
  lemma GliderInReal(p: Grid, i: nat, j: nat)
    requires Rect(p) && i + 2 < |p| - 2 && j + 2 < Width(p)
    ensures Rect(p[1..|p| - 1]) && Width(p[1..|p| - 1]) == Width(p)
    ensures PlaceGlider(p, i + OffSet, j) == WithReal(p, PlaceGlider(p[1..|p| - 1], i, j))
  {
    var rows := p[1..|p| - 1];
    assert rows[0] == p[1];
    PlaceGliderCells(p, i + 1, j);
    PlaceGliderCells(rows, i, j);
    var a, b := PlaceGlider(p, i + 1, j), WithReal(p, PlaceGlider(rows, i, j));
    forall r, c | 0 <= r < |p| && 0 <= c < Width(p) ensures a[r][c] == b[r][c] {
      if 1 <= r < |p| - 1 {
        assert b[r] == PlaceGlider(rows, i, j)[r - 1];
      }
    }
    GridExt(a, b, |p|, Width(p));
  }

  /** One worker's domain: `ny` real rows of `nx` cells between a top and a
      bottom halo row, updated in place. */
  class Universe {
    const nx: nat
    const ny: nat
    const cells: array2<Byte>

    /** The buffer has the declared shape, halo rows included. */
    predicate Valid() {
      cells.Length0 == ny + 2 && cells.Length1 == nx
    }

    /** The cells, row by row, halo rows included. */
    function Cells(): (g: Grid)
      reads cells
      ensures IsGrid(g, cells.Length0, cells.Length1)
    {
      Contents(cells)
    }

    /** The real rows, physical rows `1 .. ny`. */
    function Real(): (g: Grid)
      requires Valid()
      reads cells
      ensures IsGrid(g, ny, nx)
      ensures forall r, c :: 0 <= r < ny && 0 <= c < nx ==> g[r][c] == cells[r + OffSet, c]
    {
      Cells()[OffSet..ny + OffSet]
    }

    /** Allocates `ny + 2` rows of `nx` cells, all dead. */
    constructor Make(nx: nat, ny: nat)
      ensures this.nx == nx && this.ny == ny && Valid() && fresh(cells)
      ensures Cells() == Zero(ny + 2, nx)
    {
      var a := new Byte[ny + 2, nx];
      var i := 0;
      while i < ny + 2
        invariant 0 <= i <= ny + 2
        invariant forall r, c :: 0 <= r < i && 0 <= c < nx ==> a[r, c] == 0
      {
        var j := 0;
        while j < nx
          invariant 0 <= j <= nx
          invariant forall r, c :: 0 <= r < i && 0 <= c < nx ==> a[r, c] == 0
          invariant forall c :: 0 <= c < j ==> a[i, c] == 0
        {
          a[i, j] := 0;
          j := j + 1;
        }
        i := i + 1;
      }
      this.nx := nx;
      this.ny := ny;
      cells := a;
      GridExt(Contents(a), Zero(ny + 2, nx), ny + 2, nx);
    }

    /** The five writes of the source, shifted down by the halo row. Only
        the physical bounds are demanded (an index past them is a run-time
        panic), so the glider's last row may land in the bottom halo row. */
    method SetGliderAt(i: nat, j: nat)
      requires Valid() && i + 2 + OffSet < ny + 2 && j + 2 < nx
      modifies cells
      ensures Cells() == PlaceGlider(old(Cells()), i + OffSet, j)
    {
      ghost var g := Cells();
      var a := i + OffSet;
      cells[a, j + 1] := 1;
      cells[a + 1, j + 2] := 1;
      cells[a + 2, j] := 1;
      cells[a + 2, j + 1] := 1;
      cells[a + 2, j + 2] := 1;
      assert forall r, c :: 0 <= r < ny + 2 && 0 <= c < nx ==>
        cells[r, c] == if GliderCell(r - a, c - j) then 1 else g[r][c];
      PlaceGliderCells(g, a, j);
      GridExt(Cells(), PlaceGlider(g, a, j), ny + 2, nx);
    }

    /** Places the glider only when it fits in the real rows; otherwise
        reports failure and changes nothing. The halo rows are never written. */
    method CheckedSetGliderAt(i: nat, j: nat) returns (ok: bool)
      requires Valid()
      modifies cells
      ensures ok <==> i + 2 < ny && j + 2 < nx
      ensures ok ==> Cells() == WithReal(old(Cells()), PlaceGlider(old(Real()), i, j))
      ensures !ok ==> Cells() == old(Cells())
    {
      if i + 2 < ny && j + 2 < nx {
        ghost var p := Cells();
        SetGliderAt(i, j);
        GliderInReal(p, i, j);
        ok := true;
      } else {
        ok := false;
      }
    }

    /** Copies the real rows into `nu`; `nu`'s halo rows and this universe
        are not changed. */
    method CopyCellsTo(nu: Universe)
      requires Valid() && nu.Valid() && nu.ny == ny && nu.nx == nx
      modifies nu.cells
      ensures nu.Cells() == WithReal(old(nu.Cells()), old(Real()))
      ensures Cells() == old(Cells())
    {
      var i := OffSet;
      while i < ny + OffSet
        invariant OffSet <= i <= ny + OffSet
        invariant forall r, c :: 0 <= r < ny + 2 && 0 <= c < nx ==> cells[r, c] == old(cells[r, c])
        invariant forall r, c :: 0 <= r < ny + 2 && 0 <= c < nx ==>
          nu.cells[r, c] == if OffSet <= r < i then old(cells[r, c]) else old(nu.cells[r, c])
      {
        var j := 0;
        while j < nx
          invariant 0 <= j <= nx
          invariant forall r, c :: 0 <= r < ny + 2 && 0 <= c < nx ==> cells[r, c] == old(cells[r, c])
          invariant forall r, c :: 0 <= r < ny + 2 && 0 <= c < nx ==>
            nu.cells[r, c] == if OffSet <= r < i || (r == i && c < j) then old(cells[r, c]) else old(nu.cells[r, c])
        {
          nu.cells[i, j] := cells[i, j];
          j := j + 1;
        }
        i := i + 1;
      }
      ghost var want := WithReal(old(nu.Cells()), old(Real()));
      forall r, c | 0 <= r < ny + 2 && 0 <= c < nx ensures nu.Cells()[r][c] == want[r][c] {
        if 1 <= r <= ny {
          assert want[r] == old(Real())[r - 1];
        } else if r == ny + 1 {
          assert want[r] == old(nu.Cells())[ny + 1];
        }
      }
      GridExt(nu.Cells(), want, ny + 2, nx);
      GridExt(Cells(), old(Cells()), ny + 2, nx);
    }

    /** Adds the three cells of physical row `r` around column `j`, with
        the column wrapped, to the 8-bit counter `n0`. */
    method AddRow(r: nat, j: nat, n0: Byte) returns (n: Byte)
      requires Valid() && r < ny + 2 && j < nx
      ensures n == U8(n0 + RowSum(Cells()[r], j, j + 2))
    {
      ghost var row := Cells()[r];
      n := n0;
      var j1 := j - 1;
      while j1 <= j + 1
        invariant j - 1 <= j1 <= j + 2
        invariant n == U8(n0 + RowSum(row, j, j1))
      {
        assert cells[r, Wrap(j1, nx)] == row[Wrap(j1, nx)];
        U8Add(n0 + RowSum(row, j, j1), cells[r, Wrap(j1, nx)]);
        n := U8(n + cells[r, Wrap(j1, nx)]);
        j1 := j1 + 1;
      }
    }

    /** The 3x3 sum around physical cell `(i, j)`: rows `i-1 .. i+1` read as
        they are, columns wrapped, accumulated in the 8-bit counter. */
    method SumAround(i: nat, j: nat) returns (n: Byte)
      requires Valid() && OffSet <= i < ny + OffSet && j < nx
      ensures n == U8(WindowSum(Cells()[i - 1..i + 2], j, 3))
    {
      ghost var w := Cells()[i - 1..i + 2];
      n := 0;
      var i1 := i - 1;
      while i1 <= i + 1
        invariant i - 1 <= i1 <= i + 2
        invariant n == U8(WindowSum(w, j, i1 - i + 1))
      {
        assert w[i1 - i + 1] == Cells()[i1];
        U8Add(WindowSum(w, j, i1 - i + 1), 0);
        n := AddRow(i1, j, n);
        U8Add(WindowSum(w, j, i1 - i + 1), RowSum(w[i1 - i + 1], j, j + 2));
        i1 := i1 + 1;
      }
    }

    /** The next state of physical cell `(i, j)`: the counter is the 3x3
        sum minus the cell, and the cell is alive iff the counter is 3, or
        2 and the cell is alive. */
    method NextState(i: nat, j: nat) returns (v: Byte)
      requires Valid() && OffSet <= i < ny + OffSet && j < nx
      ensures v == StepStrip(Cells())[i - OffSet][j]
    {
      ghost var g := Cells();
      var n := SumAround(i, j);
      n := U8(n - cells[i, j]);
      v := 0;
      if n == 3 || (n == 2 && cells[i, j] > 0) {
        v := 1;
      }
      StripCounter(g, i, j);
    }

    /** Writes the next generation of physical row `i` into the same row of
        `nu`; the other rows of `nu` and this universe are not changed. */
    method EvolveRowTo(nu: Universe, i: nat)
      requires Valid() && nu.Valid() && nu.ny == ny && nu.nx == nx && nu.cells != cells
      requires OffSet <= i < ny + OffSet
      modifies nu.cells
      ensures forall c :: 0 <= c < nx ==> nu.cells[i, c] == StepStrip(Cells())[i - OffSet][c]
      ensures forall r, c :: 0 <= r < ny + 2 && r != i && 0 <= c < nx ==> nu.cells[r, c] == old(nu.cells[r, c])
    {
      ghost var g := Cells();
      var j := 0;
      while j < nx
        invariant 0 <= j <= nx
        invariant unchanged(cells)
        invariant forall c :: 0 <= c < j ==> nu.cells[i, c] == StepStrip(g)[i - OffSet][c]
        invariant forall r, c :: 0 <= r < ny + 2 && r != i && 0 <= c < nx ==> nu.cells[r, c] == old(nu.cells[r, c])
      {
        var v := NextState(i, j);
        assert Cells() == g;
        nu.cells[i, j] := v;
        j := j + 1;
      }
      assert Cells() == g;
    }

    /** Writes the next generation of every real row into `nu`'s real rows:
        alive iff the live-neighbour count is 3, or 2 and the cell is alive.
        `nu`'s halo rows and this universe are not changed. */
    method EvolveOneGenerationTo(nu: Universe)
      requires Valid() && nu.Valid() && nu.ny == ny && nu.nx == nx && nu.cells != cells
      modifies nu.cells
      ensures Rect(old(Cells()))
      ensures nu.Cells() == WithReal(old(nu.Cells()), StepStrip(old(Cells())))
      ensures Cells() == old(Cells())
    {
      ghost var g := Cells();
      ghost var h0 := nu.Cells();
      ghost var s := StepStrip(g);
      var i := OffSet;
      while i < ny + OffSet
        invariant OffSet <= i <= ny + OffSet
        invariant unchanged(cells)
        invariant forall r, c :: 0 <= r < ny + 2 && 0 <= c < nx ==>
          nu.cells[r, c] == if OffSet <= r < i then s[r - 1][c] else h0[r][c]
      {
        EvolveRowTo(nu, i);
        assert Cells() == g;
        i := i + 1;
      }
      ghost var want := WithReal(h0, s);
      forall r, c | 0 <= r < ny + 2 && 0 <= c < nx ensures nu.Cells()[r][c] == want[r][c] {
        if 1 <= r <= ny {
          assert want[r] == s[r - 1];
        } else if r == ny + 1 {
          assert want[r] == h0[ny + 1];
        }
      }
      GridExt(nu.Cells(), want, ny + 2, nx);
    }

    /** Installs the halo rows; the real rows are not changed. In the source
        the halo rows are the neighbours' row slices themselves, so every
        later write to those rows shows through; here the rows are copied
        before every generation instead. */
    method SetHalos(top: seq<Byte>, bottom: seq<Byte>)
      requires Valid() && |top| == nx && |bottom| == nx
      modifies cells
      ensures Cells() == WithHalos(old(Cells()), top, bottom)
    {
      var j := 0;
      while j < nx
        invariant 0 <= j <= nx
        invariant forall r, c :: 0 <= r < ny + 2 && 0 <= c < nx ==>
          cells[r, c] == if r == 0 && c < j then top[c] else if r == ny + 1 && c < j then bottom[c] else old(cells[r, c])
      {
        cells[0, j] := top[j];
        cells[ny + 1, j] := bottom[j];
        j := j + 1;
      }
      ghost var want := WithHalos(old(Cells()), top, bottom);
      forall r | 0 <= r < ny + 2
        ensures |want[r]| == nx && forall c :: 0 <= c < nx ==> Cells()[r][c] == want[r][c]
      {
        if r == 0 {
          assert want[r] == top;
        } else if r == ny + 1 {
          assert want[r] == bottom;
        } else {
          assert want[r] == old(Cells())[r];
        }
      }
      GridExt(Cells(), want, ny + 2, nx);
    }
  }

  // ---------------------------------------------------------------------------
  // The workers of one run.
  // ---------------------------------------------------------------------------

  /** `us` are strip universes of `h` real rows and `nx` columns with
      pairwise distinct buffers. */
  predicate Workers(us: seq<Universe>, h: nat, nx: nat) {
    (forall k :: 0 <= k < |us| ==> us[k].Valid() && us[k].ny == h && us[k].nx == nx) &&
    (forall a, b :: 0 <= a < b < |us| ==> us[a].cells != us[b].cells)
  }

  /** No buffer of `us` is a buffer of `vs`. */
  predicate Apart(us: seq<Universe>, vs: seq<Universe>) {
    forall a, b :: 0 <= a < |us| && 0 <= b < |vs| ==> us[a].cells != vs[b].cells
  }

  /** A buffer of `us` is not a buffer of `vs`, and the other way round. */
  lemma ApartBuffers(us: seq<Universe>, vs: seq<Universe>, k: nat)
    requires Apart(us, vs) || Apart(vs, us)
    requires k < |us|
    ensures us[k].cells !in Buffers(vs)
  {
  }

  /** The buffers of `us`. */
  function Buffers(us: seq<Universe>): set<array2<Byte>> {
    set k | 0 <= k < |us| :: us[k].cells
  }

  /** The real rows of every worker, in worker order. */
  function Reals(us: seq<Universe>, h: nat, nx: nat): (rs: seq<Grid>)
    requires Workers(us, h, nx)
    reads Buffers(us)
    ensures |rs| == |us|
    ensures forall k :: 0 <= k < |us| ==> rs[k] == us[k].Real() && IsGrid(rs[k], h, nx)
  {
    seq(|us|, k requires 0 <= k < |us| reads Buffers(us) => us[k].Real())
  }

  /** Installing the neighbours' edge rows as halo rows around a worker's
      real rows gives the worker's buffer after the exchange. */
  lemma HaloRows(rs: seq<Grid>, k: nat, p: Grid, top: seq<Byte>, bottom: seq<Byte>)
    requires k < |rs| && forall m :: 0 <= m < |rs| ==> |rs[m]| > 0
    requires 2 <= |p| && p[1..|p| - 1] == rs[k]
    requires top == rs[LeftNeighbour(k, |rs|)][|rs[LeftNeighbour(k, |rs|)]| - 1]
    requires bottom == rs[RightNeighbour(k, |rs|)][0]
    ensures WithHalos(p, top, bottom) == Halo(rs, k)
    ensures WithHalos(p, top, bottom)[1..|p| - 1] == rs[k]
  {
  }

  /** Worker `k`'s halo exchange: one worker wraps onto its own edge
      rows; in a ring it takes the last real row of its left neighbour and
      the first real row of its right neighbour. */
  method ExchangeOne(us: seq<Universe>, h: nat, nx: nat, k: nat, ghost rs: seq<Grid>)
    requires 1 <= h && k < |us| && Workers(us, h, nx) && |rs| == |us|
    requires forall m :: 0 <= m < |us| ==> us[m].Real() == rs[m]
    modifies us[k].cells
    ensures forall m :: 0 <= m < |rs| ==> |rs[m]| > 0
    ensures us[k].Cells() == Halo(rs, k)
    ensures us[k].Real() == rs[k]
  {
    var ngo := |us|;
    var top, bottom;
    if ngo == 1 {
      top, bottom := us[k].Cells()[h], us[k].Cells()[1];
    } else {
      top := us[LeftNeighbour(k, ngo)].Cells()[h];
      bottom := us[RightNeighbour(k, ngo)].Cells()[1];
    }
    ghost var before := us[k].Cells();
    HaloRows(rs, k, before, top, bottom);
    us[k].SetHalos(top, bottom);
  }

  /** The halo exchange of every worker before a generation. */
  method ExchangeHalos(us: seq<Universe>, h: nat, nx: nat)
    requires 1 <= h && 1 <= |us| && Workers(us, h, nx)
    modifies Buffers(us)
    ensures forall k :: 0 <= k < |us| ==> us[k].Cells() == Halo(old(Reals(us, h, nx)), k)
  {
    ghost var rs := Reals(us, h, nx);
    var k := 0;
    while k < |us|
      invariant 0 <= k <= |us|
      invariant forall m :: 0 <= m < |us| ==> us[m].Real() == rs[m]
      invariant forall m :: 0 <= m < k ==> us[m].Cells() == Halo(rs, m)
    {
      label pre:
      ExchangeOne(us, h, nx, k, rs);
      forall m | 0 <= m < |us| && m != k
        ensures us[m].Cells() == old@pre(us[m].Cells())
      {
        assert us[m].cells != us[k].cells;
      }
      k := k + 1;
    }
  }

  /** Worker `k` evolves its haloed strip into its second universe; no
      other buffer changes. */
  method EvolveOne(us: seq<Universe>, vs: seq<Universe>, h: nat, nx: nat, k: nat)
    requires Workers(us, h, nx) && Workers(vs, h, nx) && |vs| == |us| && Apart(us, vs) && k < |us|
    modifies vs[k].cells
    ensures Rect(us[k].Cells()) && vs[k].Real() == StepStrip(us[k].Cells())
    ensures forall m :: 0 <= m < |us| ==> us[m].Cells() == old(us[m].Cells())
    ensures forall m :: 0 <= m < |vs| && m != k ==> vs[m].Cells() == old(vs[m].Cells())
  {
    us[k].EvolveOneGenerationTo(vs[k]);
    forall m | 0 <= m < |us|
      ensures us[m].Cells() == old(us[m].Cells())
    {
      assert us[m].cells != vs[k].cells;
    }
    forall m | 0 <= m < |vs| && m != k
      ensures vs[m].Cells() == old(vs[m].Cells())
    {
      assert vs[m].cells != vs[k].cells;
    }
  }

  /** Every worker evolves its haloed strip into its second universe. */
  method EvolveAll(us: seq<Universe>, vs: seq<Universe>, h: nat, nx: nat)
    requires Workers(us, h, nx) && Workers(vs, h, nx) && |vs| == |us| && Apart(us, vs)
    modifies Buffers(vs)
    ensures forall k :: 0 <= k < |us| ==> Rect(us[k].Cells()) && vs[k].Real() == StepStrip(us[k].Cells())
  {
    var k := 0;
    while k < |us|
      invariant 0 <= k <= |us|
      invariant forall m :: 0 <= m < k ==> Rect(us[m].Cells()) && vs[m].Real() == StepStrip(us[m].Cells())
    {
      EvolveOne(us, vs, h, nx, k);
      k := k + 1;
    }
  }

  /** Worker `k` copies its second universe's real rows back; no other
      buffer changes. */
  method CommitOne(vs: seq<Universe>, us: seq<Universe>, h: nat, nx: nat, k: nat)
    requires Workers(us, h, nx) && Workers(vs, h, nx) && |vs| == |us| && Apart(us, vs) && k < |us|
    modifies us[k].cells
    ensures us[k].Cells() == WithReal(old(us[k].Cells()), vs[k].Real())
    ensures us[k].Real() == vs[k].Real()
    ensures forall m :: 0 <= m < |us| && m != k ==> us[m].Cells() == old(us[m].Cells())
    ensures forall m :: 0 <= m < |vs| ==> vs[m].Cells() == old(vs[m].Cells())
  {
    vs[k].CopyCellsTo(us[k]);
    assert us[k].Real() == us[k].Cells()[1..h + 1];
    forall m | 0 <= m < |us| && m != k
      ensures us[m].Cells() == old(us[m].Cells())
    {
      assert us[m].cells != us[k].cells;
    }
    forall m | 0 <= m < |vs|
      ensures vs[m].Cells() == old(vs[m].Cells())
    {
      assert vs[m].cells != us[k].cells;
    }
  }

  /** Every worker copies its second universe's real rows back. */
  method CommitAll(vs: seq<Universe>, us: seq<Universe>, h: nat, nx: nat)
    requires Workers(us, h, nx) && Workers(vs, h, nx) && |vs| == |us| && Apart(us, vs)
    modifies Buffers(us)
    ensures forall k :: 0 <= k < |us| ==> us[k].Cells() == WithReal(old(us[k].Cells()), vs[k].Real())
    ensures forall k :: 0 <= k < |us| ==> us[k].Real() == vs[k].Real()
  {
    var k := 0;
    while k < |us|
      invariant 0 <= k <= |us|
      invariant forall m :: 0 <= m < |vs| ==> vs[m].Cells() == old(vs[m].Cells())
      invariant forall m :: 0 <= m < k ==> us[m].Cells() == WithReal(old(us[m].Cells()), vs[m].Real())
      invariant forall m :: k <= m < |us| ==> us[m].Cells() == old(us[m].Cells())
    {
      CommitOne(vs, us, h, nx, k);
      k := k + 1;
    }
    forall m | 0 <= m < |us| ensures us[m].Real() == vs[m].Real() {
      assert us[m].Real() == us[m].Cells()[1..h + 1];
    }
  }

  // ---------------------------------------------------------------------------
  // The run.
  // ---------------------------------------------------------------------------

  /** Why a run stops before it starts. */
  datatype LifeError =
    | WorkerCountOdd      // more than one worker, and an odd number of them
    | HeightNotDivisible  // the rows do not split evenly among the workers
    | GliderOutOfRange    // the glider does not fit in worker 0's real rows

  datatype Result<T> = Ok(value: T) | Err(error: LifeError)

  /** The configuration check of `life`: the worker count must be 1 or
      even, and must divide the row count; on success the strip height. */
  function CheckConfig(ngo: nat, ny: nat): (r: Result<nat>)
    requires 1 <= ngo
    ensures r.Ok? <==> (ngo == 1 || ngo % 2 == 0) && ny % ngo == 0
    ensures r.Ok? ==> Start(ngo, r.value) == ny
    ensures ngo > 1 && ngo % 2 != 0 ==> r == Err(WorkerCountOdd)
    ensures (ngo == 1 || ngo % 2 == 0) && ny % ngo != 0 ==> r == Err(HeightNotDivisible)
  {
    if ngo > 1 && ngo % 2 != 0 then Err(WorkerCountOdd)
    else if ny % ngo != 0 then Err(HeightNotDivisible)
    else Ok(ny / ngo)
  }

  /** The strips of the starting grid: worker 0 holds a glider at `(0, 0)`
      of its own strip, every other worker an empty strip. */
  lemma SeedStrips(ny: nat, nx: nat, ngo: nat, h: nat, k: nat)
    requires 3 <= h && 3 <= nx && ny == Start(ngo, h) && k < ngo
    ensures 3 <= ny
    ensures Slice(Seed(ny, nx), ngo, h, k) == if k == 0 then Seed(h, nx) else Zero(h, nx)
  {
    StartBound(0, h, ngo);
    var s := Slice(Seed(ny, nx), ngo, h, k);
    var want := if k == 0 then Seed(h, nx) else Zero(h, nx);
    if k > 0 {
      StartBound(0, h, k);
    }
    forall r, c | 0 <= r < h && 0 <= c < nx ensures s[r][c] == want[r][c] {
      assert s[r] == Seed(ny, nx)[Start(k, h) + r];
    }
    GridExt(s, want, h, nx);
  }

  /** Two new universes with buffers of their own extend both worker lists. */
  lemma WorkersGrow(us: seq<Universe>, vs: seq<Universe>, u: Universe, v: Universe, h: nat, nx: nat)
    requires Workers(us, h, nx) && Workers(vs, h, nx) && Apart(us, vs) && |us| == |vs|
    requires u.Valid() && u.ny == h && u.nx == nx && v.Valid() && v.ny == h && v.nx == nx
    requires u.cells != v.cells
    requires forall k :: 0 <= k < |us| ==> us[k].cells != u.cells && us[k].cells != v.cells
    requires forall k :: 0 <= k < |vs| ==> vs[k].cells != u.cells && vs[k].cells != v.cells
    ensures Workers(us + [u], h, nx) && Workers(vs + [v], h, nx) && Apart(us + [u], vs + [v])
  {
  }

  /** Every cell of every buffer of `us`, halo rows included, is dead. */
  predicate AllDead(us: seq<Universe>, h: nat, nx: nat)
    requires Workers(us, h, nx)
    reads Buffers(us)
  {
    forall k :: 0 <= k < |us| ==> us[k].Cells() == Zero(h + 2, nx)
  }

  /** A dead buffer added to dead buffers leaves them all dead. */
  lemma DeadGrow(us: seq<Universe>, u: Universe, h: nat, nx: nat)
    requires Workers(us, h, nx) && Workers(us + [u], h, nx)
    requires AllDead(us, h, nx) && u.Cells() == Zero(h + 2, nx)
    ensures AllDead(us + [u], h, nx)
  {
  }

  /** Creates the two universes of each of `ngo` workers, all dead. */
  method Spawn(ngo: nat, h: nat, nx: nat) returns (us: seq<Universe>, vs: seq<Universe>)
    ensures |us| == ngo && |vs| == ngo
    ensures Workers(us, h, nx) && Workers(vs, h, nx) && Apart(us, vs)
    ensures forall k :: 0 <= k < ngo ==> fresh(us[k].cells) && fresh(vs[k].cells)
    ensures forall k :: 0 <= k < ngo ==> us[k].Cells() == Zero(h + 2, nx) && us[k].Real() == Zero(h, nx)
    ensures AllDead(vs, h, nx)
  {
    us, vs := [], [];
    while |us| < ngo
      invariant |vs| == |us| <= ngo
      invariant Workers(us, h, nx) && Workers(vs, h, nx) && Apart(us, vs)
      invariant forall k :: 0 <= k < |us| ==> fresh(us[k].cells) && fresh(vs[k].cells)
      invariant AllDead(us, h, nx) && AllDead(vs, h, nx)
    {
      var u := new Universe.Make(nx, h);
      var v := new Universe.Make(nx, h);
      assert AllDead(us, h, nx) && AllDead(vs, h, nx);
      WorkersGrow(us, vs, u, v, h, nx);
      DeadGrow(us, u, h, nx);
      DeadGrow(vs, v, h, nx);
      us := us + [u];
      vs := vs + [v];
    }
    assert Zero(h + 2, nx)[1..h + 1] == Zero(h, nx);
  }

  /** One generation of all workers: the halo rows are refreshed from the
      neighbours' real rows, every strip is evolved into the second
      universe, and the result is copied back. When the workers hold the
      strips of grid `g`, they then hold the strips of `Step(g)`. */
  method Generation(us: seq<Universe>, vs: seq<Universe>, h: nat, nx: nat, ghost g: Grid)
    requires 1 <= h && 1 <= |us| && |vs| == |us|
    requires Workers(us, h, nx) && Workers(vs, h, nx) && Apart(us, vs)
    requires Rect(g) && |g| == Start(|us|, h)
    requires forall k :: 0 <= k < |us| ==> us[k].Real() == Slice(g, |us|, h, k)
    modifies Buffers(us), Buffers(vs)
    ensures forall k :: 0 <= k < |us| ==> us[k].Real() == Slice(Step(g), |us|, h, k)
  {
    var ngo := |us|;
    ghost var ps := Partition(g, ngo, h);
    assert Reals(us, h, nx) == ps;
    ExchangeHalos(us, h, nx);
    label exchanged:
    EvolveAll(us, vs, h, nx);
    forall k | 0 <= k < ngo ensures vs[k].Real() == Slice(Step(g), ngo, h, k) {
      ApartBuffers(us, vs, k);
      assert us[k].Cells() == old@exchanged(us[k].Cells()) == Halo(ps, k);
      RingStripStep(g, ngo, h, k);
    }
    label evolved:
    CommitAll(vs, us, h, nx);
    forall k | 0 <= k < ngo ensures us[k].Real() == Slice(Step(g), ngo, h, k) {
      ApartBuffers(vs, us, k);
      assert vs[k].Real() == old@evolved(vs[k].Real());
    }
  }

  /** The first `k` strips of a grid stacked are its first `Start(k, h)` rows. */
  lemma PrefixGrows(g: Grid, ngo: nat, h: nat, k: nat)
    requires |g| == Start(ngo, h) && k < ngo
    ensures Start(k + 1, h) <= |g|
    ensures g[..Start(k, h)] + Slice(g, ngo, h, k) == g[..Start(k + 1, h)]
  {
    StartBound(k, h, ngo);
    StartNext(k, h);
  }

  /** The workers' real rows stacked in worker order: the grid they hold. */
  method Gather(us: seq<Universe>, h: nat, nx: nat, ghost g: Grid) returns (all: Grid)
    requires Workers(us, h, nx) && |g| == Start(|us|, h)
    requires forall k :: 0 <= k < |us| ==> us[k].Real() == Slice(g, |us|, h, k)
    ensures all == g
  {
    all := [];
    var k := 0;
    while k < |us|
      invariant 0 <= k <= |us|
      invariant Start(k, h) <= |g| && all == g[..Start(k, h)]
    {
      PrefixGrows(g, |us|, h, k);
      all := all + us[k].Real();
      k := k + 1;
    }
  }

  /** Worker 0 places the glider at `(0, 0)` of its real rows, when it
      fits; on empty workers this leaves the strips of the starting grid
      of `h` rows, worker 0's first and the others empty. */
  method PlantGlider(us: seq<Universe>, h: nat, nx: nat) returns (ok: bool)
    requires 1 <= |us| && Workers(us, h, nx)
    requires forall k :: 0 <= k < |us| ==> us[k].Real() == Zero(h, nx)
    modifies us[0].cells
    ensures ok <==> 3 <= h && 3 <= nx
    ensures ok ==> us[0].Real() == Seed(h, nx)
    ensures forall k :: 0 < k < |us| ==> us[k].Real() == Zero(h, nx)
  {
    ok := us[0].CheckedSetGliderAt(0, 0);
    if ok {
      assert us[0].Real() == us[0].Cells()[1..h + 1];
    }
    forall k | 0 < k < |us| ensures us[k].Real() == Zero(h, nx) {
      assert us[k].cells != us[0].cells;
    }
  }

  /** The workers of a run, before the first generation: two universes
      each, and a glider at `(0, 0)` in worker 0 when it fits. Then the
      workers hold the strips of the starting grid. */
  method Seeded(nx: nat, ny: nat, ngo: nat, h: nat) returns (us: seq<Universe>, vs: seq<Universe>, ok: bool)
    requires 1 <= ngo && ny == Start(ngo, h)
    ensures |us| == ngo && |vs| == ngo
    ensures Workers(us, h, nx) && Workers(vs, h, nx) && Apart(us, vs)
    ensures forall k :: 0 <= k < ngo ==> fresh(us[k].cells) && fresh(vs[k].cells)
    ensures ok <==> 3 <= h && 3 <= nx
    ensures ok ==> 3 <= ny && forall k :: 0 <= k < ngo ==> us[k].Real() == Slice(Seed(ny, nx), ngo, h, k)
  {
    us, vs := Spawn(ngo, h, nx);
    ok := PlantGlider(us, h, nx);
    if ok {
      forall k | 0 <= k < ngo ensures us[k].Real() == Slice(Seed(ny, nx), ngo, h, k) {
        SeedStrips(ny, nx, ngo, h, k);
      }
      StartBound(0, h, ngo);
    }
  }

  /** `ns` generations of all workers: from the strips of `g0` to the
      strips of `StepN(g0, ns)`. */
  method Run(us: seq<Universe>, vs: seq<Universe>, h: nat, nx: nat, ns: nat, ghost g0: Grid)
    requires 1 <= h && 1 <= |us| && |vs| == |us|
    requires Workers(us, h, nx) && Workers(vs, h, nx) && Apart(us, vs)
    requires Rect(g0) && |g0| == Start(|us|, h)
    requires forall k :: 0 <= k < |us| ==> us[k].Real() == Slice(g0, |us|, h, k)
    modifies Buffers(us), Buffers(vs)
    ensures forall k :: 0 <= k < |us| ==> us[k].Real() == Slice(StepN(g0, ns), |us|, h, k)
  {
    ghost var g := g0;
    var gen := 0;
    while gen < ns
      invariant 0 <= gen <= ns && g == StepN(g0, gen)
      invariant Rect(g) && |g| == |g0|
      invariant forall k :: 0 <= k < |us| ==> us[k].Real() == Slice(g, |us|, h, k)
    {
      Generation(us, vs, h, nx, g);
      assert Step(g) == StepN(g0, gen + 1);
      g := Step(g);
      gen := gen + 1;
    }
  }

  /** The simulation of `life` with `ngo` workers: the configuration check,
      two strip universes per worker, a glider at `(0, 0)` in worker 0, then
      `ns` generations. Returns the final grid, the workers' real rows
      stacked in worker order as the ordered print-out shows them. A run
      that is accepted computes exactly what the reference simulator
      computes. */
  method Life(nx: nat, ny: nat, ns: nat, ngo: nat) returns (r: Result<Grid>)
    requires 1 <= ngo
    ensures CheckConfig(ngo, ny).Err? ==> r == Err(CheckConfig(ngo, ny).error)
    ensures CheckConfig(ngo, ny).Ok? ==> (r.Ok? <==> 3 <= ny / ngo && 3 <= nx)
    ensures CheckConfig(ngo, ny).Ok? && r.Err? ==> r == Err(GliderOutOfRange)
    ensures r.Ok? ==> 3 <= ny && 3 <= nx && r.value == StepN(Seed(ny, nx), ns)
  {
    var cfg := CheckConfig(ngo, ny);
    if cfg.Err? {
      return Err(cfg.error);
    }
    var h := cfg.value;
    var us, vs, ok := Seeded(nx, ny, ngo, h);
    if !ok {
      return Err(GliderOutOfRange);
    }
    Run(us, vs, h, nx, ns, Seed(ny, nx));
    var all := Gather(us, h, nx, StepN(Seed(ny, nx), ns));
    return Ok(all);
  }

  /** With `ny = 4` rows and two workers every strip is two rows high,
      which the configuration check accepts. Worker 0's `SetGliderAt(0, 0)`
      writes the glider's last row into physical row 3, its bottom halo
      row; the halo exchange then puts worker 1's first row there, so the
      run starts from a grid that lacks the glider's last row. */
  lemma GliderClippedByHalo(nx: nat)
    requires 3 <= nx
    ensures CheckConfig(2, 4) == Ok(2)
    ensures PlaceGlider(Zero(4, nx), OffSet, 0)[3][0] == 1
    ensures Join([PlaceGlider(Zero(4, nx), OffSet, 0)[1..3], Zero(2, nx)]) != Seed(4, nx)
  {
    var p := PlaceGlider(Zero(4, nx), OffSet, 0);
    PlaceGliderCells(Zero(4, nx), OffSet, 0);
    var j := Join([p[1..3], Zero(2, nx)]);
    assert [p[1..3], Zero(2, nx)][..1] == [p[1..3]];
    assert [p[1..3]][..0] == [];
    assert Join([p[1..3]]) == p[1..3];
    assert j == Join([p[1..3]]) + Zero(2, nx);
    assert j[2] == Zero(2, nx)[0];
    assert j[2][0] == 0 != Seed(4, nx)[2][0];
  }
}
