/** What the edge-highlighting filter promises, proved about its pointwise
    definition `Stencil.Filter`, which `Stencil.ProcessFrame` is proved to
    compute. */
module StencilProperties {
  import opened Frames
  import opened Stencil

  /** An output pixel differs from the input only by being painted red, and
      it is red exactly when it has a dark neighbour or was red already. */
  lemma RedIffDarkNeighbour(f: Frame, y: int, x: int)
    requires 0 <= y < f.rows && 0 <= x < f.cols
    ensures At(Filter(f), y, x) == Red <==> HasDarkNeighbour(f, y, x) || At(f, y, x) == Red
    ensures At(Filter(f), y, x) != At(f, y, x) ==> HasDarkNeighbour(f, y, x) && At(Filter(f), y, x) == Red
    ensures !HasDarkNeighbour(f, y, x) ==> At(Filter(f), y, x) == At(f, y, x)
  {
  }

  /** The centre is never painted on its own account: a dark pixel with no
      dark neighbour keeps its own value. */
  lemma DarkPixelKeepsOwnValue(f: Frame, y: int, x: int)
    requires 0 <= y < f.rows && 0 <= x < f.cols
    requires IsDark(At(f, y, x)) && !HasDarkNeighbour(f, y, x)
    ensures At(Filter(f), y, x) == At(f, y, x)
    ensures IsDark(At(Filter(f), y, x))
  {
  }

  /** A frame without dark pixels passes through unchanged. */
  lemma AllBrightUnchanged(f: Frame)
    requires forall y, x :: 0 <= y < f.rows && 0 <= x < f.cols ==> !IsDark(At(f, y, x))
    ensures Filter(f) == f
  {
    FrameExt(Filter(f), f);
  }

  /** With a single dark pixel at (cy, cx), exactly its in-bounds
      neighbours turn red and every other pixel, the dark one included, is
      copied. */
  lemma SingleDarkPixel(f: Frame, cy: int, cx: int)
    requires 0 <= cy < f.rows && 0 <= cx < f.cols && IsDark(At(f, cy, cx))
    requires forall y, x :: 0 <= y < f.rows && 0 <= x < f.cols && (y != cy || x != cx) ==> !IsDark(At(f, y, x))
    ensures forall y, x :: 0 <= y < f.rows && 0 <= x < f.cols ==>
      At(Filter(f), y, x) == if Adjacent(cy, cx, y, x) then Red else At(f, y, x)
  {
    forall y, x | 0 <= y < f.rows && 0 <= x < f.cols
      ensures HasDarkNeighbour(f, y, x) <==> Adjacent(cy, cx, y, x)
    {
      if Adjacent(cy, cx, y, x) {
        assert Adjacent(y, x, cy, cx);
      }
    }
  }

  /** A dark corner pixel (0, 0), alone among bright pixels, paints only
      (0, 1), (1, 0) and (1, 1). */
  lemma DarkCorner(f: Frame)
    requires f.rows >= 2 && f.cols >= 2 && IsDark(At(f, 0, 0))
    requires forall y, x :: 0 <= y < f.rows && 0 <= x < f.cols && (y, x) != (0, 0) ==> !IsDark(At(f, y, x))
    ensures At(Filter(f), 0, 1) == Red && At(Filter(f), 1, 0) == Red && At(Filter(f), 1, 1) == Red
    ensures At(Filter(f), 0, 0) == At(f, 0, 0)
    ensures forall y, x :: 0 <= y < f.rows && 0 <= x < f.cols && (y >= 2 || x >= 2) ==> At(Filter(f), y, x) == At(f, y, x)
  {
    SingleDarkPixel(f, 0, 0);
  }

  /** In a 3 x 3 frame whose only dark pixel is the centre, the eight
      surrounding pixels turn red and the centre is unchanged. */
  lemma DarkCentreOfThreeByThree(f: Frame)
    requires f.rows == 3 && f.cols == 3 && IsDark(At(f, 1, 1))
    requires forall y, x :: 0 <= y < 3 && 0 <= x < 3 && (y, x) != (1, 1) ==> !IsDark(At(f, y, x))
    ensures At(Filter(f), 1, 1) == At(f, 1, 1)
    ensures forall y, x :: 0 <= y < 3 && 0 <= x < 3 && (y, x) != (1, 1) ==> At(Filter(f), y, x) == Red
  {
    SingleDarkPixel(f, 1, 1);
  }

  /** The pixels that are dark after filtering were dark before, unchanged. */
  lemma DarkAfterWasDarkBefore(f: Frame, y: int, x: int)
    requires 0 <= y < f.rows && 0 <= x < f.cols
    requires IsDark(At(Filter(f), y, x))
    ensures At(Filter(f), y, x) == At(f, y, x) && IsDark(At(f, y, x))
  {
  }

  /** Filtering twice is filtering once: red is never dark, so the second
      pass sees no dark pixel that the first did not, and every pixel next to
      one was painted already. */
  lemma Idempotent(f: Frame)
    ensures Filter(Filter(f)) == Filter(f)
  {
    var g := Filter(f);
    forall y, x | 0 <= y < f.rows && 0 <= x < f.cols
      ensures At(Filter(g), y, x) == At(g, y, x)
    {
      if HasDarkNeighbour(g, y, x) {
        var ny, nx :| 0 <= ny < g.rows && 0 <= nx < g.cols && Adjacent(y, x, ny, nx) && IsDark(At(g, ny, nx));
        DarkAfterWasDarkBefore(f, ny, nx);
        assert HasDarkNeighbour(f, y, x);
      }
    }
    FrameExt(Filter(g), g);
  }
}

/** The filter's result does not depend on the order in which the dark
    pixels are visited: painting their neighbourhoods one centre at a time,
    in any order that visits every pixel, gives `Filter`. */
module PaintOrder {
  import opened Frames
  import opened Stencil

  /** (i, j) is painted on account of centre c: c is an in-bounds dark pixel
      of the input and (i, j) is one of its neighbours. */
  predicate PaintsCell(orig: Frame, c: (int, int), i: int, j: int)
  {
    0 <= c.0 < orig.rows && 0 <= c.1 < orig.cols && IsDark(At(orig, c.0, c.1)) && Adjacent(c.0, c.1, i, j)
  }

  /** One visit of the scan: the painting that centre c does in `acc`. */
  function Paint(orig: Frame, acc: Frame, c: (int, int)): (r: Frame)
    requires acc.rows == orig.rows && acc.cols == orig.cols
    ensures r.rows == orig.rows && r.cols == orig.cols
  {
    Mat(acc.rows, acc.cols,
        seq(acc.rows, i requires 0 <= i < acc.rows =>
          seq(acc.cols, j requires 0 <= j < acc.cols =>
            if PaintsCell(orig, c, i, j) then Red else At(acc, i, j))))
  }

  /** Visiting the centres cs in the order given, reading only `orig`. */
  function PaintAll(orig: Frame, acc: Frame, cs: seq<(int, int)>): (r: Frame)
    requires acc.rows == orig.rows && acc.cols == orig.cols
    ensures r.rows == orig.rows && r.cols == orig.cols
    decreases |cs|
  {
    if cs == [] then acc else PaintAll(orig, Paint(orig, acc, cs[0]), cs[1..])
  }

  /** After visiting cs, a cell is red if some centre in cs paints it and
      is its earlier value otherwise. */
  lemma {:induction false} PaintAllAt(orig: Frame, acc: Frame, cs: seq<(int, int)>, i: int, j: int)
    requires acc.rows == orig.rows && acc.cols == orig.cols
    requires 0 <= i < orig.rows && 0 <= j < orig.cols
    ensures At(PaintAll(orig, acc, cs), i, j) ==
      if exists k :: 0 <= k < |cs| && PaintsCell(orig, cs[k], i, j) then Red else At(acc, i, j)
    decreases |cs|
  {
    if cs != [] {
      var next := Paint(orig, acc, cs[0]);
      PaintAllAt(orig, next, cs[1..], i, j);
      if exists k :: 0 <= k < |cs| && PaintsCell(orig, cs[k], i, j) {
        var k :| 0 <= k < |cs| && PaintsCell(orig, cs[k], i, j);
        if k > 0 {
          assert cs[1..][k - 1] == cs[k];
        }
      } else {
        forall k | 0 <= k < |cs| - 1
          ensures !PaintsCell(orig, cs[1..][k], i, j)
        {
          assert cs[1..][k] == cs[k + 1];
        }
      }
    }
  }

  /** Any visiting order that covers every pixel of the frame, with repeats
      and out-of-range centres allowed, paints exactly what `Filter` does. */
  lemma {:induction false} AnyOrderGivesFilter(orig: Frame, cs: seq<(int, int)>)
    requires forall y, x :: 0 <= y < orig.rows && 0 <= x < orig.cols ==> (y, x) in cs
    ensures PaintAll(orig, orig, cs) == Filter(orig)
  {
    forall i, j | 0 <= i < orig.rows && 0 <= j < orig.cols
      ensures At(PaintAll(orig, orig, cs), i, j) == At(Filter(orig), i, j)
    {
      PaintAllAt(orig, orig, cs, i, j);
      forall k | 0 <= k < |cs| && PaintsCell(orig, cs[k], i, j)
        ensures HasDarkNeighbour(orig, i, j)
      {
        assert Adjacent(i, j, cs[k].0, cs[k].1);
      }
      if HasDarkNeighbour(orig, i, j) {
        var ny, nx :| 0 <= ny < orig.rows && 0 <= nx < orig.cols && Adjacent(i, j, ny, nx) && IsDark(At(orig, ny, nx));
        var k :| 0 <= k < |cs| && cs[k] == (ny, nx);
        assert PaintsCell(orig, cs[k], i, j);
      }
    }
    FrameExt(PaintAll(orig, orig, cs), Filter(orig));
  }

  /** Two visiting orders that both cover the frame give the same result. */
  lemma OrderIrrelevant(orig: Frame, cs: seq<(int, int)>, ds: seq<(int, int)>)
    requires forall y, x :: 0 <= y < orig.rows && 0 <= x < orig.cols ==> (y, x) in cs
    requires forall y, x :: 0 <= y < orig.rows && 0 <= x < orig.cols ==> (y, x) in ds
    ensures PaintAll(orig, orig, cs) == PaintAll(orig, orig, ds)
  {
    AnyOrderGivesFilter(orig, cs);
    AnyOrderGivesFilter(orig, ds);
  }

  /** The cells of row y, left to right: the inner loop over x. */
  function RowCells(y: int, n: nat): (r: seq<(int, int)>)
    ensures |r| == n
  {
    if n == 0 then [] else RowCells(y, n - 1) + [(y, n - 1)]
  }

  /** The centres in the order processFrame visits them: row by row, each
      row left to right. */
  function RowMajor(rows: nat, cols: nat): (r: seq<(int, int)>)
  {
    if rows == 0 then [] else RowMajor(rows - 1, cols) + RowCells(rows - 1, cols)
  }

  lemma {:induction false} RowCellsCover(y: int, n: nat, x: int)
    requires 0 <= x < n
    ensures (y, x) in RowCells(y, n)
  {
    if x < n - 1 {
      RowCellsCover(y, n - 1, x);
    }
  }

  lemma {:induction false} RowMajorCovers(rows: nat, cols: nat, y: int, x: int)
    requires 0 <= y < rows && 0 <= x < cols
    ensures (y, x) in RowMajor(rows, cols)
  {
    if y < rows - 1 {
      RowMajorCovers(rows - 1, cols, y, x);
    } else {
      RowCellsCover(y, cols, x);
    }
  }

  /** The source's own row-major scan is one of the orders that give Filter. */
  lemma ScanOrderGivesFilter(orig: Frame)
    ensures PaintAll(orig, orig, RowMajor(orig.rows, orig.cols)) == Filter(orig)
  {
    forall y, x | 0 <= y < orig.rows && 0 <= x < orig.cols
      ensures (y, x) in RowMajor(orig.rows, orig.cols)
    {
      RowMajorCovers(orig.rows, orig.cols, y, x);
    }
    AnyOrderGivesFilter(orig, RowMajor(orig.rows, orig.cols));
  }
}
