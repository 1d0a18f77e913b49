/** Pixels and frames: the 8-bit, 3-channel images (B, G, R order) that the
    video source decodes and the filter rewrites. */
module Frames {

  /** One 8-bit channel value, as read from an 8-bit Mat. */
  newtype byte = x: int | 0 <= x < 256

  /** A pixel in the channel order B, G, R. */
  datatype Pixel = Pixel(b: byte, g: byte, r: byte)

  /** Pure red, the colour the filter paints with: B = 0, G = 0, R = 255. */
  const Red: Pixel := Pixel(0, 0, 255)

  function ChannelSum(p: Pixel): (s: int)
    ensures 0 <= s <= 765
  {
    p.b as int + p.g as int + p.r as int
  }

  /** The intensity the filter computes, (B + G + R) / 3, on exact reals. */
  function Intensity(p: Pixel): real
  {
    ChannelSum(p) as real / 3.0
  }

  /** A pixel is dark when its intensity is strictly below 64.  For integer
      channel sums this is the integer test below (see DarkIffIntensityBelow64). */
  predicate IsDark(p: Pixel)
  {
    ChannelSum(p) < 192
  }

  /** The integer form of the darkness test agrees with the intensity test. */
  lemma DarkIffIntensityBelow64(p: Pixel)
    ensures IsDark(p) <==> Intensity(p) < 64.0
    ensures ChannelSum(p) == 192 ==> !IsDark(p)
  {
  }

  /** Red has channel sum 255, so a painted pixel is never dark. */
  lemma RedIsNotDark()
    ensures ChannelSum(Red) == 255
    ensures !IsDark(Red) && Intensity(Red) == 85.0
  {
  }

  /** A frame as a Mat holds it: its dimensions and its rows of pixels. */
  datatype Mat = Mat(rows: nat, cols: nat, data: seq<seq<Pixel>>)

  /** A rectangular frame: `rows` rows, each of `cols` pixels. */
  type Frame = m: Mat | |m.data| == m.rows && forall y :: 0 <= y < m.rows ==> |m.data[y]| == m.cols
    witness Mat(0, 0, [])

  /** The pixel in row y, column x. */
  function At(f: Frame, y: int, x: int): Pixel
    requires 0 <= y < f.rows && 0 <= x < f.cols
  {
    f.data[y][x]
  }

  /** Mat.empty(): a frame with no pixels at all. */
  predicate IsEmpty(f: Frame): (e: bool)
    ensures e <==> f.rows * f.cols == 0
  {
    f.rows == 0 || f.cols == 0
  }

  /** Two frames with the same dimensions and the same pixels are equal. */
  lemma FrameExt(f: Frame, h: Frame)
    requires f.rows == h.rows && f.cols == h.cols
    requires forall y, x :: 0 <= y < f.rows && 0 <= x < f.cols ==> At(f, y, x) == At(h, y, x)
    ensures f == h
  {
    forall y | 0 <= y < f.rows
      ensures f.data[y] == h.data[y]
    {
      assert forall x :: 0 <= x < f.cols ==> f.data[y][x] == At(f, y, x);
    }
  }

  /** The frame value an array of pixels currently holds. */
  function Snapshot(a: array2<Pixel>): (f: Frame)
    reads a
    ensures f.rows == a.Length0 && f.cols == a.Length1
    ensures forall y, x :: 0 <= y < a.Length0 && 0 <= x < a.Length1 ==> At(f, y, x) == a[y, x]
  {
    Mat(a.Length0, a.Length1,
        seq(a.Length0, y requires 0 <= y < a.Length0 reads a =>
          seq(a.Length1, x requires 0 <= x < a.Length1 reads a => a[y, x])))
  }

  /** Mat.clone(): a fresh array holding the pixels of a frame value. */
  method Clone(f: Frame) returns (a: array2<Pixel>)
    ensures fresh(a)
    ensures Snapshot(a) == f
  {
    a := new Pixel[f.rows, f.cols]((y, x) requires 0 <= y < f.rows && 0 <= x < f.cols => f.data[y][x]);
    FrameExt(Snapshot(a), f);
  }
}
