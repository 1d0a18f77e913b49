/** The edge-highlighting stencil of `processFrame`: every in-bounds
    8-neighbour of a dark pixel of the input is painted red in a copy of the
    input; the input itself is only read. */
module Stencil {
  import opened Frames

  /** (y, x) is one of the eight cells around (cy, cx); the centre is not. */
  predicate Adjacent(cy: int, cx: int, y: int, x: int)
  {
    -1 <= y - cy <= 1 && -1 <= x - cx <= 1 && (y != cy || x != cx)
  }

  /** Some in-bounds neighbour of (y, x), other than (y, x) itself, is dark in f. */
  predicate HasDarkNeighbour(f: Frame, y: int, x: int)
  {
    exists ny, nx :: 0 <= ny < f.rows && 0 <= nx < f.cols && Adjacent(y, x, ny, nx) && IsDark(At(f, ny, nx))
  }

  /** The pixel the filter leaves at (y, x): red next to a dark input pixel,
      the input pixel otherwise. */
  function Filtered(f: Frame, y: int, x: int): Pixel
    requires 0 <= y < f.rows && 0 <= x < f.cols
  {
    if HasDarkNeighbour(f, y, x) then Red else At(f, y, x)
  }

  /** The filter as a function of the input frame alone. */
  function Filter(f: Frame): (r: Frame)
    ensures r.rows == f.rows && r.cols == f.cols
    ensures forall y, x :: 0 <= y < f.rows && 0 <= x < f.cols ==> At(r, y, x) == Filtered(f, y, x)
  {
    Mat(f.rows, f.cols,
        seq(f.rows, y requires 0 <= y < f.rows =>
          seq(f.cols, x requires 0 <= x < f.cols => Filtered(f, y, x))))
  }

  // ---------------------------------------------------------------------
  // The imperative filter and the bookkeeping its loops need.

  /** (py, px) is an in-bounds dark pixel that the row-major scan has
      already visited when it stands at (y, x). */
  predicate DarkBefore(f: Frame, py: int, px: int, y: int, x: int)
  {
    0 <= py < f.rows && 0 <= px < f.cols && (py < y || (py == y && px < x)) && IsDark(At(f, py, px))
  }

  /** Cell (i, j) has been painted by a centre visited before (y, x). */
  predicate PaintedBefore(f: Frame, i: int, j: int, y: int, x: int)
  {
    DarkBefore(f, i - 1, j - 1, y, x) || DarkBefore(f, i - 1, j, y, x) || DarkBefore(f, i - 1, j + 1, y, x) ||
    DarkBefore(f, i, j - 1, y, x) || DarkBefore(f, i, j + 1, y, x) ||
    DarkBefore(f, i + 1, j - 1, y, x) || DarkBefore(f, i + 1, j, y, x) || DarkBefore(f, i + 1, j + 1, y, x)
  }

  lemma StepCentre(f: Frame, i: int, j: int, y: int, x: int)
    requires 0 <= y < f.rows && 0 <= x < f.cols
    ensures PaintedBefore(f, i, j, y, x + 1) <==> PaintedBefore(f, i, j, y, x) || (IsDark(At(f, y, x)) && Adjacent(y, x, i, j))
  {
  }

  lemma StepRow(f: Frame, i: int, j: int, y: int)
    ensures PaintedBefore(f, i, j, y, f.cols) <==> PaintedBefore(f, i, j, y + 1, 0)
  {
  }

  /** At the end of the scan, "painted" is exactly "has a dark neighbour". */
  lemma PaintedAtEnd(f: Frame, i: int, j: int)
    requires 0 <= i < f.rows && 0 <= j < f.cols
    ensures PaintedBefore(f, i, j, f.rows, 0) <==> HasDarkNeighbour(f, i, j)
  {
    if HasDarkNeighbour(f, i, j) {
      var ny, nx :| 0 <= ny < f.rows && 0 <= nx < f.cols && Adjacent(i, j, ny, nx) && IsDark(At(f, ny, nx));
      assert DarkBefore(f, ny, nx, f.rows, 0);
    }
  }

  function Abs(n: int): nat
  {
    if n < 0 then -n else n
  }

  /** The inner two loops of processFrame: paint the in-bounds neighbours
      of (y, x), but not (y, x) itself, red; nothing else changes. */
  method PaintNeighbours(result: array2<Pixel>, y: int, x: int)
    requires 0 <= y < result.Length0 && 0 <= x < result.Length1
    modifies result
    ensures forall i, j :: 0 <= i < result.Length0 && 0 <= j < result.Length1 ==>
      result[i, j] == if Adjacent(y, x, i, j) then Red else old(result[i, j])
  {
    var rows := result.Length0;
    var cols := result.Length1;
    var dy := -1;
    while dy <= 1
      invariant -1 <= dy <= 2
      invariant forall i, j :: 0 <= i < rows && 0 <= j < cols ==>
        result[i, j] == if Adjacent(y, x, i, j) && i - y < dy then Red else old(result[i, j])
    {
      var dx := -1;
      while dx <= 1
        invariant -1 <= dx <= 2
        invariant forall i, j :: 0 <= i < rows && 0 <= j < cols ==>
          result[i, j] == if Adjacent(y, x, i, j) && (i - y < dy || (i - y == dy && j - x < dx)) then Red else old(result[i, j])
      {
        var ny := y + dy;
        var nx := x + dx;
        if ny >= 0 && ny < rows && nx >= 0 && nx < cols {
          if Abs(dy) == 1 || Abs(dx) == 1 {
            result[ny, nx] := Red;
          }
        }
        dx := dx + 1;
      }
      dy := dy + 1;
    }
  }

  /** The scan's state when it stands at pixel (y, x): every cell painted
      by an earlier centre is red, every other cell still holds the input. */
  ghost predicate ScannedUpTo(result: array2<Pixel>, g: Frame, y: int, x: int)
    reads result
    requires result.Length0 == g.rows && result.Length1 == g.cols
  {
    forall i, j :: 0 <= i < g.rows && 0 <= j < g.cols ==>
      result[i, j] == if PaintedBefore(g, i, j, y, x) then Red else At(g, i, j)
  }

  /** The body of the loop over x: test pixel (y, x) of the input and, when
      it is dark, paint around it. */
  method VisitPixel(original: array2<Pixel>, result: array2<Pixel>, y: int, x: int, ghost g: Frame)
    requires result != original && g == Snapshot(original)
    requires result.Length0 == original.Length0 && result.Length1 == original.Length1
    requires 0 <= y < original.Length0 && 0 <= x < original.Length1
    requires ScannedUpTo(result, g, y, x)
    modifies result
    ensures ScannedUpTo(result, g, y, x + 1)
  {
    var pixel := original[y, x];
    if IsDark(pixel) {
      PaintNeighbours(result, y, x);
    }
    forall i, j | 0 <= i < g.rows && 0 <= j < g.cols
      ensures PaintedBefore(g, i, j, y, x + 1) <==> PaintedBefore(g, i, j, y, x) || (IsDark(pixel) && Adjacent(y, x, i, j))
    {
      StepCentre(g, i, j, y, x);
    }
  }

  /** The state at the end of row y is the state at the start of row y + 1. */
  lemma RowDone(result: array2<Pixel>, g: Frame, y: int)
    requires result.Length0 == g.rows && result.Length1 == g.cols
    requires ScannedUpTo(result, g, y, g.cols)
    ensures ScannedUpTo(result, g, y + 1, 0)
  {
    forall i, j | 0 <= i < g.rows && 0 <= j < g.cols
      ensures PaintedBefore(g, i, j, y, g.cols) <==> PaintedBefore(g, i, j, y + 1, 0)
    {
      StepRow(g, i, j, y);
    }
  }

  /** One pass of the outer loop of processFrame: scan row y of the input
      and paint around each dark pixel in it. */
  method ScanRow(original: array2<Pixel>, result: array2<Pixel>, y: int, ghost g: Frame)
    requires result != original && g == Snapshot(original)
    requires result.Length0 == original.Length0 && result.Length1 == original.Length1
    requires 0 <= y < original.Length0
    requires ScannedUpTo(result, g, y, 0)
    modifies result
    ensures ScannedUpTo(result, g, y + 1, 0)
  {
    var x := 0;
    while x < original.Length1
      invariant 0 <= x <= original.Length1
      invariant ScannedUpTo(result, g, y, x)
    {
      VisitPixel(original, result, y, x, g);
      x := x + 1;
    }
    RowDone(result, g, y);
  }

  /** A fresh clone of the input is the scan's state before the first pixel. */
  lemma ScanStart(result: array2<Pixel>, g: Frame)
    requires Snapshot(result) == g
    ensures ScannedUpTo(result, g, 0, 0)
  {
  }

  /** After the last row, the scan's state is the filtered frame. */
  lemma ScanEnd(result: array2<Pixel>, g: Frame)
    requires result.Length0 == g.rows && result.Length1 == g.cols
    requires ScannedUpTo(result, g, g.rows, 0)
    ensures Snapshot(result) == Filter(g)
  {
    forall i, j | 0 <= i < g.rows && 0 <= j < g.cols
      ensures At(Snapshot(result), i, j) == At(Filter(g), i, j)
    {
      PaintedAtEnd(g, i, j);
    }
    FrameExt(Snapshot(result), Filter(g));
  }

  /** The outer loop of processFrame: scan the rows top to bottom. */
  method ScanRows(original: array2<Pixel>, result: array2<Pixel>, ghost g: Frame)
    requires result != original && g == Snapshot(original)
    requires result.Length0 == original.Length0 && result.Length1 == original.Length1
    requires ScannedUpTo(result, g, 0, 0)
    modifies result
    ensures ScannedUpTo(result, g, g.rows, 0)
  {
    var y := 0;
    while y < original.Length0
      invariant 0 <= y <= original.Length0
      invariant ScannedUpTo(result, g, y, 0)
    {
      ScanRow(original, result, y, g);
      y := y + 1;
    }
  }

  /** processFrame: clone the input into `result`, then, for every dark pixel
      of the input in row-major order, paint its in-bounds neighbours (not
      itself) red in `result`.  The input is only read (there is no modifies
      clause), and every write is within the bounds of `result`. */
  method ProcessFrame(original: array2<Pixel>) returns (result: array2<Pixel>)
    ensures fresh(result)
    ensures Snapshot(result) == Filter(Snapshot(original))
  {
    var g := Snapshot(original);
    result := Clone(g);
    ScanStart(result, g);
    ScanRows(original, result, g);
    ScanEnd(result, g);
  }
}
