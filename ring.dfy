/** The ring of workers of glifego/glifego.go as index arithmetic: who
    neighbours whom, which channels each worker is started with, what its
    halo rows hold, and why stepping every strip with those halos is the
    same as stepping the whole torus. */
module Ring {
  import opened LifeRules

  // ---------------------------------------------------------------------------
  // Neighbours and channel wiring.
  // ---------------------------------------------------------------------------

  /** Worker `i`'s left neighbour in a ring of `ngo` workers. */
  function LeftNeighbour(i: nat, ngo: nat): (k: nat)
    requires i < ngo
    ensures k < ngo
  {
    if i == 0 then ngo - 1 else i - 1
  }

  /** Worker `i`'s right neighbour in a ring of `ngo` workers. */
  function RightNeighbour(i: nat, ngo: nat): (k: nat)
    requires i < ngo
    ensures k < ngo
  {
    if i == ngo - 1 then 0 else i + 1
  }

  /** The neighbours are the modular successor and predecessor, and going
      left then right (or right then left) returns to the same worker. */
  lemma NeighboursInverse(i: nat, ngo: nat)
    requires i < ngo
    ensures LeftNeighbour(i, ngo) == (i - 1 + ngo) % ngo
    ensures RightNeighbour(i, ngo) == (i + 1) % ngo
    ensures RightNeighbour(LeftNeighbour(i, ngo), ngo) == i
    ensures LeftNeighbour(RightNeighbour(i, ngo), ngo) == i
  {
    ModTwice(i - 1 + ngo, ngo);
    ModTwice(i + 1, ngo);
  }

  /** The channels a worker is started with: `leftSend` and `rightRecv`
      index the `left` array of channels, `leftRecv` and `rightSend` the
      `right` array. */
  datatype Links = Links(leftSend: nat, rightRecv: nat, leftRecv: nat, rightSend: nat)

  /** The arguments of the `go GoLife(...)` call for worker `i`: it sends
      left and receives from the left on the channels numbered `i`, and
      receives from the right and sends right on the channels numbered by
      its right neighbour. */
  function WorkerLinks(i: nat, ngo: nat): (l: Links)
    requires i < ngo
    ensures l.leftSend == i && l.leftRecv == i
    ensures l.rightRecv == RightNeighbour(i, ngo) && l.rightSend == RightNeighbour(i, ngo)
  {
    if i < ngo - 1 then Links(i, i + 1, i, i + 1) else Links(ngo - 1, 0, ngo - 1, 0)
  }

  /** Worker `i` receives its top halo row on `right[leftRecv]`; the worker
      that sends its last real row on that channel (its `rightSend`) is
      exactly its left neighbour. */
  lemma TopHaloSender(i: nat, k: nat, ngo: nat)
    requires i < ngo && k < ngo
    ensures WorkerLinks(k, ngo).rightSend == WorkerLinks(i, ngo).leftRecv <==> k == LeftNeighbour(i, ngo)
  {
    NeighboursInverse(i, ngo);
  }

  /** Worker `i` receives its bottom halo row on `left[rightRecv]`; the
      worker that sends its first real row on that channel (its `leftSend`)
      is exactly its right neighbour. */
  lemma BottomHaloSender(i: nat, k: nat, ngo: nat)
    requires i < ngo && k < ngo
    ensures WorkerLinks(k, ngo).leftSend == WorkerLinks(i, ngo).rightRecv <==> k == RightNeighbour(i, ngo)
  {
    NeighboursInverse(i, ngo);
  }

  // ---------------------------------------------------------------------------
  // Strips and halos.
  // ---------------------------------------------------------------------------

  /** The first global row of worker `k` when every strip is `h` rows high. */
  function Start(k: nat, h: nat): nat {
    k * h
  }

  /** Consecutive workers' strips abut. */
  lemma StartNext(k: nat, h: nat)
    ensures Start(k + 1, h) == Start(k, h) + h
  {
  }

  /** The strip of worker `k < ngo` ends inside a grid of `Start(ngo, h)` rows. */
  lemma StartBound(k: nat, h: nat, ngo: nat)
    requires k < ngo
    ensures Start(k, h) + h <= Start(ngo, h)
  {
    assert (ngo - k - 1) * h >= 0;
  }

  /** Rows `Start(k, h) .. Start(k, h) + h` of `g`: the strip of worker `k`. */
  function Slice(g: Grid, ngo: nat, h: nat, k: nat): (s: Grid)
    requires |g| == Start(ngo, h) && k < ngo
    ensures Start(k, h) + h <= |g| && |s| == h
    ensures forall r :: 0 <= r < h ==> s[r] == g[Start(k, h) + r]
  {
    StartBound(k, h, ngo);
    g[Start(k, h)..Start(k, h) + h]
  }

  /** The strips of `ngo` workers, each `h` rows high. */
  function Partition(g: Grid, ngo: nat, h: nat): (ps: seq<Grid>)
    requires |g| == Start(ngo, h)
    ensures |ps| == ngo
    ensures forall k :: 0 <= k < ngo ==> |ps[k]| == h
  {
    seq(ngo, k requires 0 <= k < ngo => Slice(g, ngo, h, k))
  }

  /** The last row of a non-empty grid. */
  function Last(g: Grid): seq<Byte>
    requires 0 < |g|
  {
    g[|g| - 1]
  }

  /** Worker `w`'s buffer after the halo exchange: its top halo row is the
      last real row of its left neighbour, its bottom halo row the first
      real row of its right neighbour. */
  function Halo(strips: seq<Grid>, w: nat): (p: Grid)
    requires w < |strips| && forall k :: 0 <= k < |strips| ==> |strips[k]| > 0
    ensures |p| == |strips[w]| + 2
  {
    var l, r := LeftNeighbour(w, |strips|), RightNeighbour(w, |strips|);
    [strips[l][|strips[l]| - 1]] + strips[w] + [strips[r][0]]
  }

  /** The three parts of worker `w`'s haloed buffer: the left neighbour's
      last row on top, its own strip in the middle, the right neighbour's
      first row at the bottom. */
  lemma HaloParts(strips: seq<Grid>, w: nat)
    requires w < |strips| && forall k :: 0 <= k < |strips| ==> |strips[k]| > 0
    ensures Halo(strips, w)[0] == Last(strips[LeftNeighbour(w, |strips|)])
    ensures Halo(strips, w)[1..|strips[w]| + 1] == strips[w]
    ensures Halo(strips, w)[|strips[w]| + 1] == strips[RightNeighbour(w, |strips|)][0]
  {
  }

  /** A single worker's buffer after `cells[0] = cells[ny]` and
      `cells[ny+1] = cells[1]`. */
  function SelfWrap(g: Grid): (p: Grid)
    requires 0 < |g|
    ensures |p| == |g| + 2
    ensures p[0] == Last(g) && p[1..|p| - 1] == g && p[|p| - 1] == g[0]
  {
    [g[|g| - 1]] + g + [g[0]]
  }

  /** With one worker the ring wiring is the self-wrap. */
  lemma SelfWrapIsRing(g: Grid)
    requires 0 < |g|
    ensures Halo([g], 0) == SelfWrap(g)
  {
    NeighboursInverse(0, 1);
  }

  /** Row `r` of worker `k`'s strip is global row `Start(k, h) + r`. */
  lemma PartitionRow(g: Grid, ngo: nat, h: nat, k: nat, r: nat)
    requires |g| == Start(ngo, h) && k < ngo && r < h
    ensures Start(k, h) + r < |g|
    ensures Partition(g, ngo, h)[k][r] == g[Start(k, h) + r]
  {
    StartBound(k, h, ngo);
  }

  /** Worker `w`'s top halo row is the torus row above its first row. */
  lemma HaloTop(g: Grid, ngo: nat, h: nat, w: nat)
    requires 1 <= h && |g| == Start(ngo, h) && w < ngo
    ensures Start(w, h) < |g|
    ensures Halo(Partition(g, ngo, h), w)[0] == g[Wrap(Start(w, h) - 1, |g|)]
  {
    StartBound(w, h, ngo);
    var l := LeftNeighbour(w, ngo);
    PartitionRow(g, ngo, h, l, h - 1);
    assert Halo(Partition(g, ngo, h), w)[0] == Partition(g, ngo, h)[l][h - 1];
    StartNext(l, h);
    if w == 0 {
      assert Start(w, h) == 0 && l + 1 == ngo;
      assert Wrap(-1, |g|) == |g| - 1;
    } else {
      assert l + 1 == w;
    }
  }

  /** Worker `w`'s bottom halo row is the torus row below its last row. */
  lemma HaloBottom(g: Grid, ngo: nat, h: nat, w: nat)
    requires 1 <= h && |g| == Start(ngo, h) && w < ngo
    ensures Start(w, h) + h <= |g|
    ensures Halo(Partition(g, ngo, h), w)[h + 1] == g[Wrap(Start(w, h) + h, |g|)]
  {
    StartBound(w, h, ngo);
    var r := RightNeighbour(w, ngo);
    PartitionRow(g, ngo, h, r, 0);
    assert Halo(Partition(g, ngo, h), w)[h + 1] == Partition(g, ngo, h)[r][0];
    StartNext(w, h);
    if w == ngo - 1 {
      assert Wrap(Start(w, h) + h, |g|) == Start(r, h);
    } else {
      assert Wrap(Start(w, h) + h, |g|) == Start(r, h);
    }
  }

  /** Between its halo rows worker `w` holds its own strip of the torus. */
  lemma HaloMiddle(g: Grid, ngo: nat, h: nat, w: nat, r: nat)
    requires |g| == Start(ngo, h) && w < ngo && r < h
    ensures Start(w, h) + r < |g|
    ensures Halo(Partition(g, ngo, h), w)[r + 1] == g[Start(w, h) + r]
  {
    StartBound(w, h, ngo);
    var ps := Partition(g, ngo, h);
    assert ps[w] == Slice(g, ngo, h, w);
  }

  /** Row `q` of worker `w`'s haloed strip, halo rows included, is the
      torus row `q - 1` rows below the worker's first row. */
  lemma HaloRow(g: Grid, ngo: nat, h: nat, w: nat, q: nat)
    requires 1 <= h && |g| == Start(ngo, h) && w < ngo && q < h + 2
    ensures -1 <= Start(w, h) + q - 1 <= |g|
    ensures Halo(Partition(g, ngo, h), w)[q] == g[Wrap(Start(w, h) + q - 1, |g|)]
  {
    StartBound(w, h, ngo);
    if q == 0 {
      HaloTop(g, ngo, h, w);
    } else if q == h + 1 {
      HaloBottom(g, ngo, h, w);
    } else {
      HaloMiddle(g, ngo, h, w, q - 1);
    }
  }

  /** Three consecutive rows of `p` that are the wrapped rows around row
      `i` of `g` form the torus window of row `i`. */
  lemma WindowOfRows(p: Grid, g: Grid, i: int, k: nat)
    requires Rect(g) && 0 <= i < |g| && k + 3 <= |p|
    requires p[k] == g[Wrap(i - 1, |g|)] && p[k + 1] == g[Wrap(i, |g|)] && p[k + 2] == g[Wrap(i + 1, |g|)]
    ensures p[k..k + 3] == TorusWindow(g, i)
  {
    assert p[k..k + 3] == [p[k], p[k + 1], p[k + 2]];
  }

  /** The rows `k .. k + 2` of worker `w`'s haloed strip are the torus rows
      around global row `Start(w, h) + k`. */
  lemma HaloWindow(g: Grid, ngo: nat, h: nat, w: nat, k: nat)
    requires Rect(g) && 1 <= h && |g| == Start(ngo, h) && w < ngo && k < h
    ensures Start(w, h) + k < |g|
    ensures Halo(Partition(g, ngo, h), w)[k..k + 3] == TorusWindow(g, Start(w, h) + k)
  {
    var p := Halo(Partition(g, ngo, h), w);
    StartBound(w, h, ngo);
    HaloRow(g, ngo, h, w, k);
    HaloRow(g, ngo, h, w, k + 1);
    HaloRow(g, ngo, h, w, k + 2);
    WindowOfRows(p, g, Start(w, h) + k, k);
  }

  /** Every haloed strip of a rectangular grid is rectangular. */
  lemma HaloRect(g: Grid, ngo: nat, h: nat, w: nat)
    requires Rect(g) && 1 <= h && |g| == Start(ngo, h) && w < ngo
    ensures Rect(Halo(Partition(g, ngo, h), w))
    ensures Width(Halo(Partition(g, ngo, h), w)) == Width(g)
  {
    var ps := Partition(g, ngo, h);
    var p := Halo(ps, w);
    var l, r := LeftNeighbour(w, ngo), RightNeighbour(w, ngo);
    StartBound(l, h, ngo);
    StartBound(r, h, ngo);
    StartBound(w, h, ngo);
    assert p[0] == g[Start(l, h) + h - 1];
    assert p[h + 1] == g[Start(r, h)];
    forall q | 0 <= q < |p| ensures |p[q]| == Width(g) {
      if 1 <= q <= h {
        HaloMiddle(g, ngo, h, w, q - 1);
      }
    }
  }

  /** Stepping worker `w`'s strip with the halos the ring wires in gives
      exactly worker `w`'s rows of the reference step of the whole torus. */
  lemma RingStripStep(g: Grid, ngo: nat, h: nat, w: nat)
    requires Rect(g) && 1 <= h && |g| == Start(ngo, h) && w < ngo
    ensures Rect(Halo(Partition(g, ngo, h), w))
    ensures StepStrip(Halo(Partition(g, ngo, h), w)) == Slice(Step(g), ngo, h, w)
  {
    HaloRect(g, ngo, h, w);
    var p := Halo(Partition(g, ngo, h), w);
    var a, b := StepStrip(p), Slice(Step(g), ngo, h, w);
    StartBound(w, h, ngo);
    forall k | 0 <= k < h ensures a[k] == b[k] {
      HaloWindow(g, ngo, h, w, k);
      var i := Start(w, h) + k;
      calc {
        a[k];
        NextRow(p[k..k + 3]);
        NextRow(TorusWindow(g, i));
        Step(g)[i];
        b[k];
      }
    }
    assert a == b;
  }

  /** One worker whose halo rows wrap onto its own edge rows steps exactly
      like the reference torus. */
  lemma SelfWrapStep(g: Grid)
    requires Rect(g) && 0 < |g|
    ensures Rect(SelfWrap(g))
    ensures StepStrip(SelfWrap(g)) == Step(g)
  {
    assert Partition(g, 1, |g|)[0] == g[0..|g|] == g;
    assert Partition(g, 1, |g|) == [g];
    SelfWrapIsRing(g);
    RingStripStep(g, 1, |g|, 0);
  }

  // ---------------------------------------------------------------------------
  // Stacking the strips.
  // ---------------------------------------------------------------------------

  /** The strips stacked in worker order. */
  function Join(strips: seq<Grid>): Grid {
    if strips == [] then [] else Join(strips[..|strips| - 1]) + strips[|strips| - 1]
  }

  /** All strips but the last are the partition of the rows above the last strip. */
  lemma PartitionPrefix(g: Grid, ngo: nat, h: nat)
    requires |g| == Start(ngo, h) && 0 < ngo
    ensures Start(ngo - 1, h) <= |g|
    ensures Partition(g, ngo, h)[..ngo - 1] == Partition(g[..Start(ngo - 1, h)], ngo - 1, h)
  {
    StartNext(ngo - 1, h);
    var front := g[..Start(ngo - 1, h)];
    var ps := Partition(g, ngo, h);
    forall k | 0 <= k < ngo - 1 ensures ps[k] == Partition(front, ngo - 1, h)[k] {
      StartBound(k, h, ngo - 1);
      var a := Start(k, h);
      assert ps[k] == g[a..a + h];
      assert Partition(front, ngo - 1, h)[k] == front[a..a + h];
    }
  }

  /** The last strip is the rows from its first row to the end. */
  lemma PartitionLast(g: Grid, ngo: nat, h: nat)
    requires |g| == Start(ngo, h) && 0 < ngo
    ensures Start(ngo - 1, h) <= |g|
    ensures Partition(g, ngo, h)[ngo - 1] == g[Start(ngo - 1, h)..]
  {
    StartNext(ngo - 1, h);
    assert Partition(g, ngo, h)[ngo - 1] == Slice(g, ngo, h, ngo - 1);
  }

  /** Stacking the strips of a partition gives back the grid. */
  lemma {:induction false} JoinPartition(g: Grid, ngo: nat, h: nat)
    requires |g| == Start(ngo, h)
    ensures Join(Partition(g, ngo, h)) == g
    decreases ngo
  {
    if ngo > 0 {
      var ps := Partition(g, ngo, h);
      var m := Start(ngo - 1, h);
      PartitionPrefix(g, ngo, h);
      PartitionLast(g, ngo, h);
      JoinPartition(g[..m], ngo - 1, h);
      calc {
        Join(ps);
        Join(ps[..ngo - 1]) + ps[ngo - 1];
        g[..m] + g[m..];
        g;
      }
    }
  }

  /** One generation of all workers: each strip stepped with its halos. */
  function RingStep(strips: seq<Grid>): (next: seq<Grid>)
    requires forall k :: 0 <= k < |strips| ==> 0 < |strips[k]|
    requires forall w :: 0 <= w < |strips| ==> Rect(Halo(strips, w))
    ensures |next| == |strips|
  {
    seq(|strips|, w requires 0 <= w < |strips| => StepStrip(Halo(strips, w)))
  }

  /** Stacking the stepped strips of all workers gives the reference step of
      the whole torus, for any number of workers and any strip height. */
  lemma RingStepIsStep(g: Grid, ngo: nat, h: nat)
    requires Rect(g) && 1 <= h && |g| == Start(ngo, h)
    ensures forall w :: 0 <= w < ngo ==> Rect(Halo(Partition(g, ngo, h), w))
    ensures Join(RingStep(Partition(g, ngo, h))) == Step(g)
  {
    var ps := Partition(g, ngo, h);
    forall w | 0 <= w < ngo ensures Rect(Halo(ps, w)) && StepStrip(Halo(ps, w)) == Slice(Step(g), ngo, h, w) {
      RingStripStep(g, ngo, h, w);
    }
    assert RingStep(ps) == Partition(Step(g), ngo, h);
    JoinPartition(Step(g), ngo, h);
  }
}
