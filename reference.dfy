/** The serial filters (OMP/image_proc_omp.c): each reads the whole input image
    and writes a separate output image.  The spec functions here say, byte by
    byte, what each filter leaves in its output; the distributed filters are
    proved to agree with them. The OpenMP pragma only hands independent row
    iterations to threads, so each loop is modelled as the sequential loop it
    parallelises: every output byte is a function of the unchanged input, so
    the order of the rows does not matter. */
module Reference {
  import opened Layout
  import opened Stencil
  import opened Sweep

  /** Pixel `(i, j)` is off the image border. */
  predicate Interior(w: int, h: int, i: int, j: int) {
    1 <= i < h - 1 && 1 <= j < w - 1
  }

  /** The 3x3 neighbourhood of byte `k` in an image whose rows are `rs` bytes
      long: the bytes one row (`rs`) and one pixel (`c`) away in each direction.
      By `NeighbourOffset` these are the bytes at the program's
      `((i + di) * width + (j + dj)) * channels + ch`. */
  function GlobalWindow(img: seq<Byte>, rs: int, c: int, k: int): Window {
    Window(At(img, k - rs - c), At(img, k - rs), At(img, k - rs + c),
           At(img, k - c),      At(img, k),      At(img, k + c),
           At(img, k + rs - c), At(img, k + rs), At(img, k + rs + c))
  }

  // ---------------------------------------------------------------- grayscale

  /** The gray value of the pixel whose channel 0 is byte `p`; a missing G or B
      channel reads as R. */
  function GrayOf(luma: Luma, img: seq<Byte>, c: int, p: int): Byte {
    var r := At(img, p);
    var g := if c > 1 then At(img, p + 1) else r;
    var b := if c > 2 then At(img, p + 2) else r;
    luma(r, g, b)
  }

  /** Grayscale output byte `k`: the gray value in channels 0..2, the input's
      alpha in channel 3, and whatever `fill` held in any further channel. */
  function GrayscaleAt(luma: Luma, img: seq<Byte>, fill: seq<Byte>, w: nat, c: nat, k: nat): Byte
    requires w > 0 && c > 0
  {
    var ch := ChanOf(w, c, k);
    if ch < 3 then GrayOf(luma, img, c, k - ch)
    else if ch == 3 then At(img, k)
    else At(fill, k)
  }

  function Grayscale(luma: Luma, img: seq<Byte>, fill: seq<Byte>, w: nat, c: nat): seq<Byte>
    requires w > 0 && c > 0
  {
    seq(|img|, k requires 0 <= k < |img| => GrayscaleAt(luma, img, fill, w, c, k))
  }

  /** In the grayscale image the colour channels of every pixel hold the gray
      value of that pixel's input R, G and B, the alpha channel is the input's,
      and bytes beyond alpha are `fill`'s. */
  lemma GrayscalePixel(luma: Luma, img: seq<Byte>, fill: seq<Byte>, w: nat, h: nat, c: nat,
                       i: nat, j: nat, ch: nat)
    requires w > 0 && c > 0 && |img| == h * (w * c)
    requires i < h && j < w && ch < c
    ensures 0 <= Offset(w, c, i, j, 0) && Offset(w, c, i, j, c - 1) < |img|
    ensures ch < 3 ==>
      Grayscale(luma, img, fill, w, c)[Offset(w, c, i, j, ch)]
      == luma(img[Offset(w, c, i, j, 0)],
              img[Offset(w, c, i, j, if c > 1 then 1 else 0)],
              img[Offset(w, c, i, j, if c > 2 then 2 else 0)])
    ensures ch == 3 ==>
      Grayscale(luma, img, fill, w, c)[Offset(w, c, i, j, ch)] == img[Offset(w, c, i, j, ch)]
    ensures ch > 3 ==>
      Grayscale(luma, img, fill, w, c)[Offset(w, c, i, j, ch)] == At(fill, Offset(w, c, i, j, ch))
  {
    OffsetCoords(h, w, c, i, j, ch);
    OffsetCoords(h, w, c, i, j, 0);
    OffsetCoords(h, w, c, i, j, c - 1);
    if c > 1 { OffsetCoords(h, w, c, i, j, 1); }
    if c > 2 { OffsetCoords(h, w, c, i, j, 2); }
  }

  // ---------------------------------------------------------------- blur

  /** Blurred byte `k`: border pixels keep their input value. */
  function BlurAt(img: seq<Byte>, w: nat, h: nat, c: nat, k: nat): Byte
    requires w > 0 && c > 0
  {
    if Interior(w, h, RowOf(w, c, k), ColOf(w, c, k))
    then BlurValue(GlobalWindow(img, w * c, c, k))
    else At(img, k)
  }

  function Blur(img: seq<Byte>, w: nat, h: nat, c: nat): seq<Byte>
    requires w > 0 && c > 0
  {
    seq(|img|, k requires 0 <= k < |img| => BlurAt(img, w, h, c, k))
  }

  /** The blur copies rows 0 and h-1 and columns 0 and w-1 of every channel;
      every other byte is the blur of its 3x3 neighbourhood in the same
      channel, which lies inside the input. */
  lemma BlurPixel(img: seq<Byte>, w: nat, h: nat, c: nat, i: nat, j: nat, ch: nat)
    requires w > 0 && c > 0 && |img| == h * (w * c)
    requires i < h && j < w && ch < c
    ensures 0 <= Offset(w, c, i, j, ch) < |img|
    ensures !Interior(w, h, i, j) ==>
      Blur(img, w, h, c)[Offset(w, c, i, j, ch)] == img[Offset(w, c, i, j, ch)]
    ensures Interior(w, h, i, j) ==>
      WindowInside(|img|, w * c, c, Offset(w, c, i, j, ch))
      && Blur(img, w, h, c)[Offset(w, c, i, j, ch)]
         == BlurValue(GlobalWindow(img, w * c, c, Offset(w, c, i, j, ch)))
  {
    OffsetCoords(h, w, c, i, j, ch);
    if Interior(w, h, i, j) {
      NeighboursInside(w, h, c, i, j, ch);
    }
  }

  /** All nine bytes of the window around byte `k` lie in a buffer of `n` bytes. */
  predicate WindowInside(n: int, rs: int, c: int, k: int) {
    0 <= k - rs - c && k + rs + c < n
  }

  /** The window of an interior pixel lies inside the image. */
  lemma NeighboursInside(w: nat, h: nat, c: nat, i: nat, j: nat, ch: nat)
    requires w > 0 && c > 0 && Interior(w, h, i, j) && ch < c
    ensures WindowInside(h * (w * c), w * c, c, Offset(w, c, i, j, ch))
  {
    OffsetCoords(h, w, c, i - 1, j - 1, ch);
    OffsetCoords(h, w, c, i + 1, j + 1, ch);
    NeighbourOffset(w, c, i, j, ch, -1, -1);
    NeighbourOffset(w, c, i, j, ch, 1, 1);
  }

  // ---------------------------------------------------------------- edge

  /** Edge output byte `k`: interior pixels get, in every channel, the edge
      strength of channel 0 of their neighbourhood; border pixels keep what
      `fill` held. */
  function EdgeAt(img: seq<Byte>, fill: seq<Byte>, w: nat, h: nat, c: nat, k: nat): Byte
    requires w > 0 && c > 0
  {
    if Interior(w, h, RowOf(w, c, k), ColOf(w, c, k))
    then EdgeValue(GlobalWindow(img, w * c, c, k - ChanOf(w, c, k)))
    else At(fill, k)
  }

  function Edge(img: seq<Byte>, fill: seq<Byte>, w: nat, h: nat, c: nat): seq<Byte>
    requires w > 0 && c > 0
  {
    seq(|img|, k requires 0 <= k < |img| => EdgeAt(img, fill, w, h, c, k))
  }

  /** Every channel of an interior pixel carries the edge strength computed
      from channel 0 of its neighbourhood, which lies inside the input; border
      pixels are `fill`'s. */
  lemma EdgePixel(img: seq<Byte>, fill: seq<Byte>, w: nat, h: nat, c: nat, i: nat, j: nat, ch: nat)
    requires w > 0 && c > 0 && |img| == h * (w * c)
    requires i < h && j < w && ch < c
    ensures 0 <= Offset(w, c, i, j, ch) < |img|
    ensures Interior(w, h, i, j) ==>
      WindowInside(|img|, w * c, c, Offset(w, c, i, j, 0))
      && Edge(img, fill, w, h, c)[Offset(w, c, i, j, ch)]
         == EdgeValue(GlobalWindow(img, w * c, c, Offset(w, c, i, j, 0)))
    ensures !Interior(w, h, i, j) ==>
      Edge(img, fill, w, h, c)[Offset(w, c, i, j, ch)] == At(fill, Offset(w, c, i, j, ch))
  {
    OffsetCoords(h, w, c, i, j, ch);
    if Interior(w, h, i, j) {
      NeighboursInside(w, h, c, i, j, 0);
    }
  }

  // ---------------------------------------------------------------- brightness

  function Brightness(img: seq<Byte>, delta: int): seq<Byte> {
    seq(|img|, k requires 0 <= k < |img| => Brighten(img[k], delta))
  }

  /** With the program's `+50`, every byte `b` becomes `min(255, b + 50)`. */
  lemma BrightnessBy50(img: seq<Byte>, k: nat)
    requires k < |img|
    ensures img[k] as int + 50 > 255 ==> Brightness(img, 50)[k] == 255
    ensures img[k] as int + 50 <= 255 ==> Brightness(img, 50)[k] == img[k] as int + 50
  {
  }

  // ---------------------------------------------------------------- kernels

  /** `grayscale_filter` */
  method GrayscaleFilter(input: array<Byte>, output: array<Byte>, w: nat, h: nat, c: nat, luma: Luma)
    requires input != output
    requires w > 0 && c > 0 && input.Length == w * h * c && output.Length == input.Length
    modifies output
    ensures output[..] == Grayscale(luma, input[..], old(output[..]), w, c)
  {
    ghost var src, init := input[..], output[..];
    ghost var target := Grayscale(luma, src, init, w, c);
    var i := 0;
    while i < h
      invariant 0 <= i <= h
      invariant output[..] == RowsWritten(target, init, w, c, Rows(0, i), 0, w)
    {
      GrayscaleRowTarget(luma, src, init, w, c, Rows(0, i), i);
      GrayscaleRow(input, output, w, h, c, luma, i);
      RowsNext(target, init, w, c, 0, i, 0, w);
      i := i + 1;
    }
    GrayscaleRowsAnyOrder(luma, src, init, w, h, c, Rows(0, h));
  }

  /** One iteration of `grayscale_filter`'s row loop: from whatever the
      output holds, channels 0 to 3 of every pixel of row `i` get their
      grayscale bytes, and no other byte changes. */
  method GrayscaleRow(input: array<Byte>, output: array<Byte>, w: nat, h: nat, c: nat, luma: Luma, i: nat)
    requires input != output
    requires w > 0 && c > 0 && input.Length == w * h * c && output.Length == input.Length
    requires i < h
    modifies output
    ensures output[..] == RowWritten(Grayscale(luma, input[..], old(output[..]), w, c), old(output[..]), w, c, i, 0, w)
  {
    ghost var src, prev := input[..], output[..];
    ghost var gray := Grayscale(luma, src, prev, w, c);
    ghost var target := RowWritten(gray, prev, w, c, i, 0, w);
    assert |prev| == h * (w * c);
    RowStepStart(gray, prev, w, c, i, 0, w);
    var j := 0;
    while j < w
      invariant 0 <= j <= w
      invariant output[..] == Progress(target, prev, w, c, i, j, 0)
    {
      GrayscalePixelWrite(input, output, w, h, c, luma, i, j, prev);
      j := j + 1;
    }
    RowStepDone(gray, prev, w, h, c, i, 0, w, j);
  }

  /** A grayscale row step leaves channels past alpha as they were, so after
      any sequence of earlier row steps it writes the same bytes as a step
      whose untouched channels are taken from the image the loop began with. */
  lemma GrayscaleRowTarget(luma: Luma, img: seq<Byte>, fill: seq<Byte>, w: nat, c: nat, rows: seq<int>, i: int)
    requires w > 0 && c > 0 && |fill| == |img|
    ensures var p := RowsWritten(Grayscale(luma, img, fill, w, c), fill, w, c, rows, 0, w);
      RowWritten(Grayscale(luma, img, p, w, c), p, w, c, i, 0, w)
      == RowWritten(Grayscale(luma, img, fill, w, c), p, w, c, i, 0, w)
  {
    RowsWrittenAt(Grayscale(luma, img, fill, w, c), fill, w, c, rows, 0, w);
  }

  /** The row steps of `grayscale_filter`, run in any order, leave
      `Grayscale`: the OpenMP loop and the sequential one agree. */
  lemma GrayscaleRowsAnyOrder(luma: Luma, img: seq<Byte>, fill: seq<Byte>, w: nat, h: nat, c: nat,
                              rows: seq<int>)
    requires w > 0 && c > 0 && |fill| == |img| == h * (w * c)
    requires forall r :: r in rows <==> 0 <= r < h
    ensures RowsWritten(Grayscale(luma, img, fill, w, c), fill, w, c, rows, 0, w) == Grayscale(luma, img, fill, w, c)
  {
    RowsWrittenAt(Grayscale(luma, img, fill, w, c), fill, w, c, rows, 0, w);
    AllCoords(h, w, c, |img|);
  }

  /** One iteration of `grayscale_filter`'s inner loop: the writes to pixel
      `(i, j)`. */
  method GrayscalePixelWrite(input: array<Byte>, output: array<Byte>, w: nat, h: nat, c: nat, luma: Luma,
                             i: nat, j: nat, ghost init: seq<Byte>)
    requires input != output
    requires w > 0 && c > 0 && input.Length == w * h * c && output.Length == input.Length == |init|
    requires i < h && j < w
    requires output[..]
      == Progress(RowWritten(Grayscale(luma, input[..], init, w, c), init, w, c, i, 0, w), init, w, c, i, j, 0)
    modifies output
    ensures output[..]
      == Progress(RowWritten(Grayscale(luma, input[..], init, w, c), init, w, c, i, 0, w), init, w, c, i, j + 1, 0)
  {
    ghost var src := input[..];
    ghost var target := RowWritten(Grayscale(luma, src, init, w, c), init, w, c, i, 0, w);
    assert |init| == h * (w * c);
    var idx := Offset(w, c, i, j, 0);
    GrayscaleChannel(luma, src, init, w, h, c, i, j, 0);
    GrayscaleChannel(luma, src, init, w, h, c, i, j, if c < 4 then c - 1 else 3);
    OffsetCoords(h, w, c, i, j, 0);
    var r := input[idx];
    var g := if c > 1 then input[idx + 1] else r;
    var b := if c > 2 then input[idx + 2] else r;
    var gray := luma(r, g, b);
    assert gray == GrayOf(luma, src, c, idx);
    // `written` counts the channels of the pixel written so far
    ghost var written := 1;
    ProgressStep(target, init, w, h, c, i, j, 0);
    SetByte(output, idx, gray);
    if c > 1 {
      GrayscaleChannel(luma, src, init, w, h, c, i, j, 1);
      OffsetCoords(h, w, c, i, j, 1);
      ProgressStep(target, init, w, h, c, i, j, 1);
      SetByte(output, idx + 1, gray);
      written := 2;
    }
    assert output[..] == Progress(target, init, w, c, i, j, written);
    if c > 2 {
      GrayscaleChannel(luma, src, init, w, h, c, i, j, 2);
      OffsetCoords(h, w, c, i, j, 2);
      ProgressStep(target, init, w, h, c, i, j, 2);
      SetByte(output, idx + 2, gray);
      written := 3;
    }
    assert output[..] == Progress(target, init, w, c, i, j, written);
    if c > 3 {
      GrayscaleChannel(luma, src, init, w, h, c, i, j, 3);
      OffsetCoords(h, w, c, i, j, 3);
      ProgressStep(target, init, w, h, c, i, j, 3);
      SetByte(output, idx + 3, input[idx + 3]);
      written := 4;
    }
    assert output[..] == Progress(target, init, w, c, i, j, written);
    assert written == if c < 4 then c else 4;
    GrayscaleKeepsExtraChannels(luma, src, init, w, h, c, i, j);
    ProgressNextPixel(target, init, w, h, c, i, j);
  }

  /** Channel `ch` (0 to 3) of pixel `(i, j)` of the grayscale image: the gray
      value of the pixel for a colour channel, the input byte for alpha. */
  lemma GrayscaleChannel(luma: Luma, img: seq<Byte>, fill: seq<Byte>, w: nat, h: nat, c: nat,
                         i: nat, j: nat, ch: nat)
    requires w > 0 && c > 0 && |img| == h * (w * c)
    requires i < h && j < w && ch < c && ch < 4
    ensures 0 <= Offset(w, c, i, j, 0) <= Offset(w, c, i, j, ch) < |img|
    ensures Grayscale(luma, img, fill, w, c)[Offset(w, c, i, j, ch)]
      == if ch < 3 then GrayOf(luma, img, c, Offset(w, c, i, j, 0)) else img[Offset(w, c, i, j, ch)]
  {
    OffsetCoords(h, w, c, i, j, ch);
  }

  /** `grayscale_filter` writes channels 0 to 3 of a pixel and no further
      one, and leaves channels past alpha as `fill` holds them. */
  lemma GrayscaleKeepsExtraChannels(luma: Luma, img: seq<Byte>, fill: seq<Byte>,
                                    w: nat, h: nat, c: nat, i: nat, j: nat)
    requires w > 0 && c > 0 && |img| == |fill| == h * (w * c) && i < h && j < w
    ensures var target := RowWritten(Grayscale(luma, img, fill, w, c), fill, w, c, i, 0, w);
      Progress(target, fill, w, c, i, j, if c < 4 then c else 4)
      == Progress(target, fill, w, c, i, j, c)
  {
    var target := RowWritten(Grayscale(luma, img, fill, w, c), fill, w, c, i, 0, w);
    ProgressSkipChannels(target, fill, w, c, i, j, if c < 4 then c else 4);
  }

  /** What the blur's first pass leaves: interior bytes blurred, the rest
      as `fill` held them. */
  ghost function InteriorBlurred(img: seq<Byte>, fill: seq<Byte>, w: nat, h: nat, c: nat): (s: seq<Byte>)
    requires w > 0 && c > 0 && |fill| == |img|
    ensures |s| == |img|
  {
    seq(|img|, k requires 0 <= k < |img| =>
      if Interior(w, h, RowOf(w, c, k), ColOf(w, c, k)) then BlurAt(img, w, h, c, k) else fill[k])
  }

  /** `gaussian_blur_filter`: the interior pass, then the border copy. */
  method GaussianBlurFilter(input: array<Byte>, output: array<Byte>, w: nat, h: nat, c: nat)
    requires input != output
    requires w > 0 && c > 0 && input.Length == w * h * c && output.Length == input.Length
    modifies output
    ensures output[..] == Blur(input[..], w, h, c)
  {
    BlurInterior(input, output, w, h, c);
    BlurBorders(input, output, w, h, c);
  }

  /** The first loop nest of `gaussian_blur_filter`: every interior byte
      becomes the blur of its neighbourhood. */
  method BlurInterior(input: array<Byte>, output: array<Byte>, w: nat, h: nat, c: nat)
    requires input != output
    requires w > 0 && c > 0 && input.Length == w * h * c && output.Length == input.Length
    modifies output
    ensures output[..] == InteriorBlurred(input[..], old(output[..]), w, h, c)
  {
    ghost var src, init := input[..], output[..];
    ghost var target := Blur(src, w, h, c);
    var i := 1;
    while i < h - 1
      invariant 1 <= i && (h >= 2 ==> i <= h - 1) && (h < 2 ==> i == 1)
      invariant output[..] == RowsWritten(target, init, w, c, Rows(1, i), 1, w - 1)
    {
      BlurRow(input, output, w, h, c, i);
      RowsNext(target, init, w, c, 1, i, 1, w - 1);
      i := i + 1;
    }
    BlurRowsAnyOrder(src, init, w, h, c, Rows(1, i));
  }

  /** One iteration of the interior pass's row loop, the unit of work the
      OpenMP pragma hands to a thread: from whatever the output holds, the
      interior bytes of row `i` become the blur and no other byte changes. */
  method BlurRow(input: array<Byte>, output: array<Byte>, w: nat, h: nat, c: nat, i: nat)
    requires input != output
    requires w > 0 && c > 0 && input.Length == w * h * c && output.Length == input.Length
    requires 1 <= i < h - 1
    modifies output
    ensures output[..] == RowWritten(Blur(input[..], w, h, c), old(output[..]), w, c, i, 1, w - 1)
  {
    ghost var src, prev := input[..], output[..];
    ghost var target := RowWritten(Blur(src, w, h, c), prev, w, c, i, 1, w - 1);
    assert |prev| == h * (w * c);
    RowStepStart(Blur(src, w, h, c), prev, w, c, i, 1, w - 1);
    var j := 1;
    while j < w - 1
      invariant 1 <= j <= w && (w >= 2 ==> j <= w - 1)
      invariant output[..] == Progress(target, prev, w, c, i, j, 0)
    {
      var ch := 0;
      while ch < c
        invariant 0 <= ch <= c
        invariant output[..] == Progress(target, prev, w, c, i, j, ch)
      {
        ProgressStep(target, prev, w, h, c, i, j, ch);
        OffsetCoords(h, w, c, i, j, ch);
        BlurPixel(src, w, h, c, i, j, ch);
        var idx := Offset(w, c, i, j, ch);
        SetByte(output, idx, BlurValue(GlobalWindow(input[..], w * c, c, idx)));
        ch := ch + 1;
      }
      ProgressNextPixel(target, prev, w, h, c, i, j);
      j := j + 1;
    }
    RowStepDone(Blur(src, w, h, c), prev, w, h, c, i, 1, w - 1, j);
  }

  /** The row steps of the interior pass, run in any order, each row once or
      more, leave `InteriorBlurred`: the OpenMP loop and the sequential one
      agree. */
  lemma BlurRowsAnyOrder(img: seq<Byte>, fill: seq<Byte>, w: nat, h: nat, c: nat, rows: seq<int>)
    requires w > 0 && c > 0 && |fill| == |img|
    requires forall r :: r in rows <==> 1 <= r < h - 1
    ensures RowsWritten(Blur(img, w, h, c), fill, w, c, rows, 1, w - 1) == InteriorBlurred(img, fill, w, h, c)
  {
    RowsWrittenAt(Blur(img, w, h, c), fill, w, c, rows, 1, w - 1);
  }

  /** The border copy of `gaussian_blur_filter`: rows 0 and h-1 whole, the
      end pixels of every other row. */
  method BlurBorders(input: array<Byte>, output: array<Byte>, w: nat, h: nat, c: nat)
    requires input != output
    requires w > 0 && c > 0 && input.Length == w * h * c && output.Length == input.Length
    requires output[..] == InteriorBlurred(input[..], output[..], w, h, c)
    modifies output
    ensures output[..] == Blur(input[..], w, h, c)
  {
    ghost var src, init := input[..], output[..];
    ghost var target := Blur(src, w, h, c);
    assert |init| == h * (w * c);
    ProgressStart(target, init, w, c);
    var i := 0;
    while i < h
      invariant 0 <= i <= h
      invariant output[..] == Progress(target, init, w, c, i, 0, 0)
    {
      if i == 0 || i == h - 1 {
        CopyRow(input, output, w, h, c, i, init);
      } else {
        CopyRowEnds(input, output, w, h, c, i, init);
      }
      i := i + 1;
    }
    ProgressDone(target, init, w, h, c);
  }

  /** Once the interior pass is done, the blur of a row other than the first
      and the last differs from the buffer at most in its end pixels. */
  lemma BlurInnerRow(img: seq<Byte>, fill: seq<Byte>, w: nat, h: nat, c: nat, i: nat)
    requires w > 0 && c > 0 && |fill| == |img| && 0 < i < h - 1
    requires fill == InteriorBlurred(img, fill, w, h, c)
    ensures forall k: nat :: k < |img| && RowOf(w, c, k) == i && 0 < ColOf(w, c, k) < w - 1
               ==> Blur(img, w, h, c)[k] == fill[k]
  {
    forall k: nat | k < |img| && RowOf(w, c, k) == i && 0 < ColOf(w, c, k) < w - 1
      ensures Blur(img, w, h, c)[k] == fill[k]
    {
      assert fill[k] == InteriorBlurred(img, fill, w, h, c)[k];
    }
  }

  /** Copies row `i`, the first or the last, of `input` to `output` pixel by
      pixel: the blur of that row. */
  method CopyRow(input: array<Byte>, output: array<Byte>, w: nat, h: nat, c: nat, i: nat,
                 ghost init: seq<Byte>)
    requires input != output
    requires w > 0 && c > 0 && input.Length == w * h * c && output.Length == input.Length == |init|
    requires i < h && (i == 0 || i == h - 1)
    requires output[..] == Progress(Blur(input[..], w, h, c), init, w, c, i, 0, 0)
    modifies output
    ensures output[..] == Progress(Blur(input[..], w, h, c), init, w, c, i + 1, 0, 0)
  {
    ghost var src := input[..];
    ghost var target := Blur(src, w, h, c);
    assert |init| == h * (w * c);
    var j := 0;
    while j < w
      invariant 0 <= j <= w
      invariant output[..] == Progress(target, init, w, c, i, j, 0)
    {
      var idx := Offset(w, c, i, j, 0);
      var ch := 0;
      while ch < c
        invariant 0 <= ch <= c
        invariant output[..] == Progress(target, init, w, c, i, j, ch)
      {
        ProgressStep(target, init, w, h, c, i, j, ch);
        BlurPixel(src, w, h, c, i, j, ch);
        SetByte(output, idx + ch, input[idx + ch]);
        ch := ch + 1;
      }
      ProgressNextPixel(target, init, w, h, c, i, j);
      j := j + 1;
    }
    ProgressNextRow(target, init, w, h, c, i);
  }

  /** Copies the first and the last pixel of row `i`, neither the first nor
      the last row, of `input` to `output`, channel by channel: once the
      interior pass is done, the blur of that row. */
  method CopyRowEnds(input: array<Byte>, output: array<Byte>, w: nat, h: nat, c: nat, i: nat,
                     ghost init: seq<Byte>)
    requires input != output
    requires w > 0 && c > 0 && input.Length == w * h * c && output.Length == input.Length == |init|
    requires 0 < i < h - 1
    requires init == InteriorBlurred(input[..], init, w, h, c)
    requires output[..] == Progress(Blur(input[..], w, h, c), init, w, c, i, 0, 0)
    modifies output
    ensures output[..] == Progress(Blur(input[..], w, h, c), init, w, c, i + 1, 0, 0)
  {
    ghost var src := input[..];
    ghost var target := Blur(src, w, h, c);
    assert |init| == h * (w * c);
    var idxLeft := Offset(w, c, i, 0, 0);
    var idxRight := Offset(w, c, i, w - 1, 0);
    EndsStart(target, init, w, c, i);
    var ch := 0;
    while ch < c
      invariant 0 <= ch <= c
      invariant output[..] == EndsProgress(target, init, w, c, i, ch)
    {
      EndsStep(target, init, w, h, c, i, ch);
      BlurPixel(src, w, h, c, i, 0, ch);
      BlurPixel(src, w, h, c, i, w - 1, ch);
      SetByte(output, idxLeft + ch, input[idxLeft + ch]);
      SetByte(output, idxRight + ch, input[idxRight + ch]);
      ch := ch + 1;
    }
    BlurInnerRow(src, init, w, h, c, i);
    EndsDone(target, init, w, h, c, i);
  }

  /** `sobel_edge_filter`: interior pixels only; the border of `output` is not
      written. */
  method SobelEdgeFilter(input: array<Byte>, output: array<Byte>, w: nat, h: nat, c: nat)
    requires input != output
    requires w > 0 && c > 0 && input.Length == w * h * c && output.Length == input.Length
    modifies output
    ensures output[..] == Edge(input[..], old(output[..]), w, h, c)
  {
    ghost var src, init := input[..], output[..];
    ghost var target := Edge(src, init, w, h, c);
    var i := 1;
    while i < h - 1
      invariant 1 <= i && (h >= 2 ==> i <= h - 1) && (h < 2 ==> i == 1)
      invariant output[..] == RowsWritten(target, init, w, c, Rows(1, i), 1, w - 1)
    {
      SobelRow(input, output, w, h, c, i, init);
      RowsNext(target, init, w, c, 1, i, 1, w - 1);
      i := i + 1;
    }
    EdgeRowsAnyOrder(src, init, w, h, c, Rows(1, i));
  }

  /** One iteration of `sobel_edge_filter`'s row loop: from whatever the
      output holds, each interior pixel of row `i` gets, in every channel, the
      edge strength of channel 0 around it, and no other byte changes.
      (`fill` only decides the border, which a row step does not write.) */
  method SobelRow(input: array<Byte>, output: array<Byte>, w: nat, h: nat, c: nat, i: nat,
                  ghost fill: seq<Byte>)
    requires input != output
    requires w > 0 && c > 0 && input.Length == w * h * c && output.Length == input.Length == |fill|
    requires 1 <= i < h - 1
    modifies output
    ensures output[..] == RowWritten(Edge(input[..], fill, w, h, c), old(output[..]), w, c, i, 1, w - 1)
  {
    ghost var src, prev := input[..], output[..];
    ghost var target := RowWritten(Edge(src, fill, w, h, c), prev, w, c, i, 1, w - 1);
    assert |prev| == h * (w * c);
    RowStepStart(Edge(src, fill, w, h, c), prev, w, c, i, 1, w - 1);
    var j := 1;
    while j < w - 1
      invariant 1 <= j <= w && (w >= 2 ==> j <= w - 1)
      invariant output[..] == Progress(target, prev, w, c, i, j, 0)
    {
      var outIdx := Offset(w, c, i, j, 0);
      var edgeValue := EdgeValue(GlobalWindow(input[..], w * c, c, outIdx));
      forall ch | 0 <= ch < c
        ensures At(target, Offset(w, c, i, j, ch)) == edgeValue
      {
        OffsetCoords(h, w, c, i, j, ch);
        EdgePixel(src, fill, w, h, c, i, j, ch);
      }
      SetPixel(output, target, prev, w, h, c, i, j, edgeValue);
      j := j + 1;
    }
    RowStepDone(Edge(src, fill, w, h, c), prev, w, h, c, i, 1, w - 1, j);
  }

  /** The row steps of `sobel_edge_filter`, run in any order, leave
      `Edge`: the OpenMP loop and the sequential one agree. */
  lemma EdgeRowsAnyOrder(img: seq<Byte>, fill: seq<Byte>, w: nat, h: nat, c: nat, rows: seq<int>)
    requires w > 0 && c > 0 && |fill| == |img|
    requires forall r :: r in rows <==> 1 <= r < h - 1
    ensures RowsWritten(Edge(img, fill, w, h, c), fill, w, c, rows, 1, w - 1) == Edge(img, fill, w, h, c)
  {
    RowsWrittenAt(Edge(img, fill, w, h, c), fill, w, c, rows, 1, w - 1);
  }

  /** `brightness_filter` */
  method BrightnessFilter(input: array<Byte>, output: array<Byte>, w: nat, h: nat, c: nat, delta: int)
    requires input != output
    requires w > 0 && c > 0 && input.Length == w * h * c && output.Length == input.Length
    modifies output
    ensures output[..] == Brightness(input[..], delta)
  {
    ghost var src, init := input[..], output[..];
    ghost var target := Brightness(src, delta);
    var i := 0;
    while i < h
      invariant 0 <= i <= h
      invariant output[..] == RowsWritten(target, init, w, c, Rows(0, i), 0, w)
    {
      BrightnessRow(input, output, w, h, c, delta, i);
      RowsNext(target, init, w, c, 0, i, 0, w);
      i := i + 1;
    }
    BrightnessRowsAnyOrder(src, init, w, h, c, delta, Rows(0, h));
  }

  /** One iteration of `brightness_filter`'s row loop: from whatever the
      output holds, row `i` becomes the clamped `input + delta` and no other
      byte changes. */
  method BrightnessRow(input: array<Byte>, output: array<Byte>, w: nat, h: nat, c: nat, delta: int, i: nat)
    requires input != output
    requires w > 0 && c > 0 && input.Length == w * h * c && output.Length == input.Length
    requires i < h
    modifies output
    ensures output[..] == RowWritten(Brightness(input[..], delta), old(output[..]), w, c, i, 0, w)
  {
    ghost var src, prev := input[..], output[..];
    ghost var target := RowWritten(Brightness(src, delta), prev, w, c, i, 0, w);
    assert |prev| == h * (w * c);
    RowStepStart(Brightness(src, delta), prev, w, c, i, 0, w);
    var j := 0;
    while j < w
      invariant 0 <= j <= w
      invariant output[..] == Progress(target, prev, w, c, i, j, 0)
    {
      var idx := Offset(w, c, i, j, 0);
      var ch := 0;
      while ch < c
        invariant 0 <= ch <= c
        invariant output[..] == Progress(target, prev, w, c, i, j, ch)
      {
        ProgressStep(target, prev, w, h, c, i, j, ch);
        OffsetCoords(h, w, c, i, j, ch);
        var newVal := input[idx + ch] as int + delta;
        if newVal > 255 { newVal := 255; }
        if newVal < 0 { newVal := 0; }
        SetByte(output, idx + ch, newVal);
        ch := ch + 1;
      }
      ProgressNextPixel(target, prev, w, h, c, i, j);
      j := j + 1;
    }
    RowStepDone(Brightness(src, delta), prev, w, h, c, i, 0, w, j);
  }

  /** The row steps of `brightness_filter`, run in any order, leave
      `Brightness`: the OpenMP loop and the sequential one agree. */
  lemma BrightnessRowsAnyOrder(img: seq<Byte>, fill: seq<Byte>, w: nat, h: nat, c: nat, delta: int,
                               rows: seq<int>)
    requires w > 0 && c > 0 && |fill| == |img| == h * (w * c)
    requires forall r :: r in rows <==> 0 <= r < h
    ensures RowsWritten(Brightness(img, delta), fill, w, c, rows, 0, w) == Brightness(img, delta)
  {
    RowsWrittenAt(Brightness(img, delta), fill, w, c, rows, 0, w);
    AllCoords(h, w, c, |img|);
  }

}
