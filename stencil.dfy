/** Per-pixel arithmetic shared by the serial and the distributed filters: the
    3x3 neighbourhood, the Gaussian and Sobel kernels, the brightness clamp and
    the luminance function. */
module Stencil {
  import opened Layout

  /** The 3x3 neighbourhood of one byte: `pXY` is the byte `X - 1` rows and
      `Y - 1` columns away, the order of the kernels' `[di + 1][dj + 1]` index. */
  datatype Window = Window(p00: Byte, p01: Byte, p02: Byte,
                           p10: Byte, p11: Byte, p12: Byte,
                           p20: Byte, p21: Byte, p22: Byte)
  {
    function Entries(): seq<Byte> {
      [p00, p01, p02, p10, p11, p12, p20, p21, p22]
    }
  }

  /** The neighbourhood in which every byte is `v`. */
  function Flat(v: Byte): Window {
    Window(v, v, v, v, v, v, v, v, v)
  }

  /** The Gaussian kernel [[1,2,1],[2,4,2],[1,2,1]] applied with integer weights,
      i.e. 16 times the sum the program accumulates. */
  function BlurSum(win: Window): int {
    win.p00 + 2 * win.p01 + win.p02
    + 2 * win.p10 + 4 * win.p11 + 2 * win.p12
    + win.p20 + 2 * win.p21 + win.p22
  }

  /** The blurred byte.  The program's float weights k/16 are exact binary
      fractions and every partial sum is a multiple of 1/16 no larger than 255,
      so its float sum is exactly `BlurSum / 16`, and the cast to `unsigned char`
      truncates that non-negative value to its floor. */
  function BlurValue(win: Window): (r: Byte)
    ensures 16 * r <= BlurSum(win) < 16 * r + 16
  {
    BlurSum(win) / 16
  }

  /** The blur is a weighted mean: it stays within the range of the
      neighbourhood, and a uniform neighbourhood blurs to itself. */
  lemma BlurWithinRange(win: Window, lo: int, hi: int)
    requires forall x :: x in win.Entries() ==> lo <= x <= hi
    ensures lo <= BlurValue(win) <= hi
    ensures win == Flat(win.p11) ==> BlurValue(win) == win.p11
  {
    assert win.p00 in win.Entries() && win.p01 in win.Entries() && win.p02 in win.Entries();
    assert win.p10 in win.Entries() && win.p11 in win.Entries() && win.p12 in win.Entries();
    assert win.p20 in win.Entries() && win.p21 in win.Entries() && win.p22 in win.Entries();
    assert 16 * lo <= BlurSum(win) <= 16 * hi;
  }

  /** Horizontal Sobel gradient Gx = [[-1,0,1],[-2,0,2],[-1,0,1]]. */
  function GradX(win: Window): int {
    (win.p02 + 2 * win.p12 + win.p22) - (win.p00 + 2 * win.p10 + win.p20)
  }

  /** Vertical Sobel gradient Gy = [[-1,-2,-1],[0,0,0],[1,2,1]]. */
  function GradY(win: Window): int {
    (win.p20 + 2 * win.p21 + win.p22) - (win.p00 + 2 * win.p01 + win.p02)
  }

  /** Integer square root: the largest `r` with `r * r <= n`. */
  function Isqrt(n: nat): (r: nat)
    ensures r * r <= n < (r + 1) * (r + 1)
  {
    if n == 0 then 0
    else
      var s := Isqrt(n - 1);
      if (s + 1) * (s + 1) <= n then s + 1 else s
  }

  /** The edge strength written to every channel of a pixel: the gradient
      magnitude, clamped to 255, truncated.  Both gradients are integers of
      magnitude at most 1020, so the float sums, the squares and their sum
      (at most 2080800) are exact in single precision; the square root of a
      non-square `n` stays further below the next integer than one float step,
      so `(unsigned char)min(sqrt(n), 255)` is the clamped integer root. */
  function EdgeValue(win: Window): (r: Byte)
    ensures r * r <= GradX(win) * GradX(win) + GradY(win) * GradY(win)
    ensures r < 255 ==>
      GradX(win) * GradX(win) + GradY(win) * GradY(win) < (r + 1) * (r + 1)
  {
    var m := Isqrt(GradX(win) * GradX(win) + GradY(win) * GradY(win));
    if m > 255 then
      MulMonotone(255, m, 255);
      MulMonotone(255, m, m);
      255
    else m
  }

  /** No gradient, no edge: a uniform neighbourhood gives 0. */
  lemma FlatHasNoEdge(v: Byte)
    ensures EdgeValue(Flat(v)) == 0
  {
  }

  /** How far `v` lies from `b + delta`. */
  function Gap(v: int, b: int, delta: int): nat {
    if v <= b + delta then b + delta - v else v - (b + delta)
  }

  /** The brightness clamp: `b + delta` when that is a byte, otherwise the
      byte nearest to it. */
  function Brighten(b: Byte, delta: int): (r: Byte)
    ensures 0 <= b + delta <= 255 ==> r == b + delta
    ensures forall v: Byte :: Gap(r, b, delta) <= Gap(v, b, delta)
  {
    var v := b + delta;
    if v > 255 then 255 else if v < 0 then 0 else v
  }

  /** The luminance of an (R, G, B) triple.  The program computes it in double
      precision with the inexact weights 0.299, 0.587 and 0.114; the model
      keeps it as a parameter, so every property proved holds for any such
      function. */
  type Luma = (Byte, Byte, Byte) -> Byte
}
