/** The kernels each rank runs on its own block of `lh` rows
    (MPI/image_proc_mpi.c).  They work in place on the block: grayscale and
    brightness byte by byte, blur and edge from a copy `temp` of the block
    taken before any write, reading the row above the block from `top` and
    the row below it from `bottom`, the halo rows the exchange delivered.
    The first row of rank 0 and the last row of the last rank are the
    image's own border rows and are left as they are; so are the first and
    the last column of every row. */
module MpiFilters {
  import opened Layout
  import opened Stencil
  import opened Sweep
  import opened Reference

  /** Row `i` of the block is a border row of the whole image. */
  predicate SkippedRow(lh: int, rank: int, size: int, i: int) {
    (rank == 0 && i == 0) || (rank == size - 1 && i == lh - 1)
  }

  /** Pixel `(i, j)` of the block is recomputed by the blur and the edge
      kernels. */
  predicate Recomputed(w: int, lh: int, rank: int, size: int, i: int, j: int) {
    0 <= i < lh && !SkippedRow(lh, rank, size, i) && 1 <= j < w - 1
  }

  /** Channel `ch` of pixel `(ni, nj)` as a kernel reads it: from the top
      halo above the block, from the bottom halo below it, from the copy of
      the block otherwise. */
  function LocalRead(temp: seq<Byte>, top: seq<Byte>, bottom: seq<Byte>, w: int, lh: int, c: int,
                     ni: int, nj: int, ch: int): Byte {
    if ni < 0 then At(top, nj * c + ch)
    else if ni >= lh then At(bottom, nj * c + ch)
    else At(temp, Offset(w, c, ni, nj, ch))
  }

  /** The 3x3 neighbourhood of channel `ch` of pixel `(i, j)` as a kernel
      reads it. */
  function LocalWindow(temp: seq<Byte>, top: seq<Byte>, bottom: seq<Byte>, w: int, lh: int, c: int,
                       i: int, j: int, ch: int): Window {
    Window(LocalRead(temp, top, bottom, w, lh, c, i - 1, j - 1, ch),
           LocalRead(temp, top, bottom, w, lh, c, i - 1, j, ch),
           LocalRead(temp, top, bottom, w, lh, c, i - 1, j + 1, ch),
           LocalRead(temp, top, bottom, w, lh, c, i, j - 1, ch),
           LocalRead(temp, top, bottom, w, lh, c, i, j, ch),
           LocalRead(temp, top, bottom, w, lh, c, i, j + 1, ch),
           LocalRead(temp, top, bottom, w, lh, c, i + 1, j - 1, ch),
           LocalRead(temp, top, bottom, w, lh, c, i + 1, j, ch),
           LocalRead(temp, top, bottom, w, lh, c, i + 1, j + 1, ch))
  }

  /** Every read of a recomputed pixel's neighbourhood stays inside the
      buffer it reads: a halo row of `w * c` bytes or the block. */
  lemma LocalWindowInside(w: nat, lh: nat, c: nat, rank: int, size: int, i: int, j: int, ch: nat,
                          di: int, dj: int)
    requires c > 0 && Recomputed(w, lh, rank, size, i, j) && ch < c
    requires -1 <= di <= 1 && -1 <= dj <= 1
    ensures i + di < 0 || i + di >= lh ==> 0 <= (j + dj) * c + ch < w * c
    ensures 0 <= i + di < lh ==> 0 <= Offset(w, c, i + di, j + dj, ch) < lh * (w * c)
  {
    RowOffsetBound(w, c, j + dj, ch);
    if 0 <= i + di < lh {
      OffsetCoords(lh, w, c, i + di, j + dj, ch);
    }
  }

  /** The first rank never reads its top halo and the last rank never reads
      its bottom halo: what those buffers hold does not matter. */
  lemma OuterHalosUnread(temp: seq<Byte>, top: seq<Byte>, bottom: seq<Byte>,
                         top': seq<Byte>, bottom': seq<Byte>,
                         w: int, lh: int, c: int, rank: int, size: int, i: int, j: int, ch: int)
    requires Recomputed(w, lh, rank, size, i, j)
    ensures rank == 0 ==>
      LocalWindow(temp, top, bottom, w, lh, c, i, j, ch) == LocalWindow(temp, top', bottom, w, lh, c, i, j, ch)
    ensures rank == size - 1 ==>
      LocalWindow(temp, top, bottom, w, lh, c, i, j, ch) == LocalWindow(temp, top, bottom', w, lh, c, i, j, ch)
  {
  }

  // ---------------------------------------------------------------- grayscale

  /** `grayscale_filter_mpi` converts the block in place. */
  method GrayscaleMpi(data: array<Byte>, lh: nat, w: nat, c: nat, luma: Luma)
    requires w > 0 && c > 0 && data.Length == lh * w * c
    modifies data
    ensures data[..] == Grayscale(luma, old(data[..]), old(data[..]), w, c)
  {
    ghost var init := data[..];
    ghost var target := Grayscale(luma, init, init, w, c);
    assert |init| == lh * (w * c);
    ProgressStart(target, init, w, c);
    var i := 0;
    while i < lh
      invariant 0 <= i <= lh
      invariant data[..] == Progress(target, init, w, c, i, 0, 0)
    {
      var j := 0;
      while j < w
        invariant 0 <= j <= w
        invariant data[..] == Progress(target, init, w, c, i, j, 0)
      {
        GrayscalePixelMpi(data, w, lh, c, luma, i, j, init);
        j := j + 1;
      }
      ProgressNextRow(target, init, w, lh, c, i);
      i := i + 1;
    }
    ProgressDone(target, init, w, lh, c);
  }

  /** One iteration of the inner loop of `grayscale_filter_mpi`: the pixel's
      R, G and B are read before any of them is overwritten. */
  method GrayscalePixelMpi(data: array<Byte>, w: nat, lh: nat, c: nat, luma: Luma, i: nat, j: nat,
                           ghost init: seq<Byte>)
    requires w > 0 && c > 0 && data.Length == |init| == lh * (w * c)
    requires i < lh && j < w
    requires data[..] == Progress(Grayscale(luma, init, init, w, c), init, w, c, i, j, 0)
    modifies data
    ensures data[..] == Progress(Grayscale(luma, init, init, w, c), init, w, c, i, j + 1, 0)
  {
    ghost var target := Grayscale(luma, init, init, w, c);
    var idx := Offset(w, c, i, j, 0);
    GrayscaleChannel(luma, init, init, w, lh, c, i, j, 0);
    ProgressPending(target, init, w, lh, c, i, j, 0, 0);
    var r := data[idx];
    var g := r;
    if c > 1 {
      ProgressPending(target, init, w, lh, c, i, j, 0, 1);
      g := data[idx + 1];
    }
    var b := r;
    if c > 2 {
      ProgressPending(target, init, w, lh, c, i, j, 0, 2);
      b := data[idx + 2];
    }
    var gray := luma(r, g, b);
    assert gray == GrayOf(luma, init, c, idx);
    // `written` counts the channels of the pixel written so far
    ghost var written := 1;
    ProgressStep(target, init, w, lh, c, i, j, 0);
    SetByte(data, idx, gray);
    if c > 1 {
      GrayscaleChannel(luma, init, init, w, lh, c, i, j, 1);
      ProgressStep(target, init, w, lh, c, i, j, 1);
      SetByte(data, idx + 1, gray);
      written := 2;
    }
    assert data[..] == Progress(target, init, w, c, i, j, written);
    if c > 2 {
      GrayscaleChannel(luma, init, init, w, lh, c, i, j, 2);
      ProgressStep(target, init, w, lh, c, i, j, 2);
      SetByte(data, idx + 2, gray);
      written := 3;
    }
    assert data[..] == Progress(target, init, w, c, i, j, written);
    assert written == if c < 3 then c else 3;
    GrayscaleInPlaceKeepsAlpha(luma, init, w, lh, c, i, j);
    ProgressNextPixel(target, init, w, lh, c, i, j);
  }

  /** Converting in place leaves alpha and any further channel as they were:
      the grayscale image with the block itself as `fill` agrees with the
      block from channel 3 on. */
  lemma GrayscaleInPlaceKeepsAlpha(luma: Luma, img: seq<Byte>, w: nat, lh: nat, c: nat, i: nat, j: nat)
    requires w > 0 && c > 0 && |img| == lh * (w * c) && i < lh && j < w
    ensures var target := Grayscale(luma, img, img, w, c);
      Progress(target, img, w, c, i, j, if c < 3 then c else 3)
      == Progress(target, img, w, c, i, j, c)
  {
    ProgressSkipChannels(Grayscale(luma, img, img, w, c), img, w, c, i, j, if c < 3 then c else 3);
  }

  // ---------------------------------------------------------------- blur

  /** Blurred byte `k` of the block. */
  function BlurLocalAt(temp: seq<Byte>, top: seq<Byte>, bottom: seq<Byte>, w: nat, lh: nat, c: nat,
                       rank: int, size: int, k: nat): Byte
    requires w > 0 && c > 0
  {
    var i, j := RowOf(w, c, k), ColOf(w, c, k);
    if Recomputed(w, lh, rank, size, i, j)
    then BlurValue(LocalWindow(temp, top, bottom, w, lh, c, i, j, ChanOf(w, c, k)))
    else At(temp, k)
  }

  /** The block after `gaussian_blur_filter_mpi`. */
  function BlurLocal(temp: seq<Byte>, top: seq<Byte>, bottom: seq<Byte>, w: nat, lh: nat, c: nat,
                     rank: int, size: int): seq<Byte>
    requires w > 0 && c > 0
  {
    seq(|temp|, k requires 0 <= k < |temp| => BlurLocalAt(temp, top, bottom, w, lh, c, rank, size, k))
  }

  /** A recomputed byte is the blur of its neighbourhood as the kernel reads
      it; every other byte of the block keeps its value. */
  lemma BlurLocalPixel(temp: seq<Byte>, top: seq<Byte>, bottom: seq<Byte>, w: nat, lh: nat, c: nat,
                       rank: int, size: int, i: nat, j: nat, ch: nat)
    requires w > 0 && c > 0 && |temp| == lh * (w * c) && i < lh && j < w && ch < c
    ensures 0 <= Offset(w, c, i, j, ch) < |temp|
    ensures Recomputed(w, lh, rank, size, i, j) ==>
      BlurLocal(temp, top, bottom, w, lh, c, rank, size)[Offset(w, c, i, j, ch)]
      == BlurValue(LocalWindow(temp, top, bottom, w, lh, c, i, j, ch))
    ensures !Recomputed(w, lh, rank, size, i, j) ==>
      BlurLocal(temp, top, bottom, w, lh, c, rank, size)[Offset(w, c, i, j, ch)] == temp[Offset(w, c, i, j, ch)]
  {
    OffsetCoords(lh, w, c, i, j, ch);
  }

  /** `gaussian_blur_filter_mpi`: `temp` is the copy of the block taken
      before the first write, so every window is read from the unfiltered
      block. */
  method GaussianBlurMpi(data: array<Byte>, top: seq<Byte>, bottom: seq<Byte>, lh: nat, w: nat, c: nat,
                         rank: nat, size: nat)
    requires w > 0 && c > 0 && data.Length == lh * w * c && |top| == |bottom| == w * c
    modifies data
    ensures data[..] == BlurLocal(old(data[..]), top, bottom, w, lh, c, rank, size)
  {
    var temp := data[..];
    ghost var target := BlurLocal(temp, top, bottom, w, lh, c, rank, size);
    assert |temp| == lh * (w * c);
    ProgressStart(target, temp, w, c);
    var i := 0;
    while i < lh
      invariant 0 <= i <= lh
      invariant data[..] == Progress(target, temp, w, c, i, 0, 0)
    {
      if SkippedRow(lh, rank, size, i) {
        ProgressSkipRows(target, temp, w, c, i, i + 1);
      } else {
        BlurRowMpi(data, temp, top, bottom, w, lh, c, rank, size, i);
      }
      i := i + 1;
    }
    ProgressDone(target, temp, w, lh, c);
  }

  /** One iteration of the row loop of `gaussian_blur_filter_mpi` for a row
      that is not skipped. */
  method BlurRowMpi(data: array<Byte>, temp: seq<Byte>, top: seq<Byte>, bottom: seq<Byte>,
                    w: nat, lh: nat, c: nat, rank: nat, size: nat, i: nat)
    requires w > 0 && c > 0 && data.Length == |temp| == lh * (w * c) && |top| == |bottom| == w * c
    requires i < lh && !SkippedRow(lh, rank, size, i)
    requires data[..] == Progress(BlurLocal(temp, top, bottom, w, lh, c, rank, size), temp, w, c, i, 0, 0)
    modifies data
    ensures data[..] == Progress(BlurLocal(temp, top, bottom, w, lh, c, rank, size), temp, w, c, i + 1, 0, 0)
  {
    ghost var target := BlurLocal(temp, top, bottom, w, lh, c, rank, size);
    ProgressSkip(target, temp, w, c, i, 0, 1);
    var j := 1;
    while j < w - 1
      invariant 1 <= j <= w && (w >= 2 ==> j <= w - 1)
      invariant data[..] == Progress(target, temp, w, c, i, j, 0)
    {
      var ch := 0;
      while ch < c
        invariant 0 <= ch <= c
        invariant data[..] == Progress(target, temp, w, c, i, j, ch)
      {
        ProgressStep(target, temp, w, lh, c, i, j, ch);
        BlurLocalPixel(temp, top, bottom, w, lh, c, rank, size, i, j, ch);
        var outIdx := Offset(w, c, i, j, ch);
        SetByte(data, outIdx, BlurValue(LocalWindow(temp, top, bottom, w, lh, c, i, j, ch)));
        ch := ch + 1;
      }
      ProgressNextPixel(target, temp, w, lh, c, i, j);
      j := j + 1;
    }
    ProgressSkip(target, temp, w, c, i, j, w);
    ProgressNextRow(target, temp, w, lh, c, i);
  }

  // ---------------------------------------------------------------- edge

  /** Edge byte `k` of the block: every channel of a recomputed pixel gets
      the edge strength of channel 0 of its neighbourhood. */
  function EdgeLocalAt(temp: seq<Byte>, top: seq<Byte>, bottom: seq<Byte>, w: nat, lh: nat, c: nat,
                       rank: int, size: int, k: nat): Byte
    requires w > 0 && c > 0
  {
    var i, j := RowOf(w, c, k), ColOf(w, c, k);
    if Recomputed(w, lh, rank, size, i, j)
    then EdgeValue(LocalWindow(temp, top, bottom, w, lh, c, i, j, 0))
    else At(temp, k)
  }

  /** The block after `sobel_edge_filter_mpi`. */
  function EdgeLocal(temp: seq<Byte>, top: seq<Byte>, bottom: seq<Byte>, w: nat, lh: nat, c: nat,
                     rank: int, size: int): seq<Byte>
    requires w > 0 && c > 0
  {
    seq(|temp|, k requires 0 <= k < |temp| => EdgeLocalAt(temp, top, bottom, w, lh, c, rank, size, k))
  }

  /** Every channel of a recomputed pixel carries the edge strength of
      channel 0 of its neighbourhood; every other byte keeps its value. */
  lemma EdgeLocalPixel(temp: seq<Byte>, top: seq<Byte>, bottom: seq<Byte>, w: nat, lh: nat, c: nat,
                       rank: int, size: int, i: nat, j: nat, ch: nat)
    requires w > 0 && c > 0 && |temp| == lh * (w * c) && i < lh && j < w && ch < c
    ensures 0 <= Offset(w, c, i, j, ch) < |temp|
    ensures Recomputed(w, lh, rank, size, i, j) ==>
      EdgeLocal(temp, top, bottom, w, lh, c, rank, size)[Offset(w, c, i, j, ch)]
      == EdgeValue(LocalWindow(temp, top, bottom, w, lh, c, i, j, 0))
    ensures !Recomputed(w, lh, rank, size, i, j) ==>
      EdgeLocal(temp, top, bottom, w, lh, c, rank, size)[Offset(w, c, i, j, ch)] == temp[Offset(w, c, i, j, ch)]
  {
    OffsetCoords(lh, w, c, i, j, ch);
  }

  /** `sobel_edge_filter_mpi` */
  method SobelEdgeMpi(data: array<Byte>, top: seq<Byte>, bottom: seq<Byte>, lh: nat, w: nat, c: nat,
                      rank: nat, size: nat)
    requires w > 0 && c > 0 && data.Length == lh * w * c && |top| == |bottom| == w * c
    modifies data
    ensures data[..] == EdgeLocal(old(data[..]), top, bottom, w, lh, c, rank, size)
  {
    var temp := data[..];
    ghost var target := EdgeLocal(temp, top, bottom, w, lh, c, rank, size);
    assert |temp| == lh * (w * c);
    ProgressStart(target, temp, w, c);
    var i := 0;
    while i < lh
      invariant 0 <= i <= lh
      invariant data[..] == Progress(target, temp, w, c, i, 0, 0)
    {
      if SkippedRow(lh, rank, size, i) {
        ProgressSkipRows(target, temp, w, c, i, i + 1);
      } else {
        SobelRowMpi(data, temp, top, bottom, w, lh, c, rank, size, i);
      }
      i := i + 1;
    }
    ProgressDone(target, temp, w, lh, c);
  }

  /** One iteration of the row loop of `sobel_edge_filter_mpi` for a row
      that is not skipped. */
  method SobelRowMpi(data: array<Byte>, temp: seq<Byte>, top: seq<Byte>, bottom: seq<Byte>,
                     w: nat, lh: nat, c: nat, rank: nat, size: nat, i: nat)
    requires w > 0 && c > 0 && data.Length == |temp| == lh * (w * c) && |top| == |bottom| == w * c
    requires i < lh && !SkippedRow(lh, rank, size, i)
    requires data[..] == Progress(EdgeLocal(temp, top, bottom, w, lh, c, rank, size), temp, w, c, i, 0, 0)
    modifies data
    ensures data[..] == Progress(EdgeLocal(temp, top, bottom, w, lh, c, rank, size), temp, w, c, i + 1, 0, 0)
  {
    ghost var target := EdgeLocal(temp, top, bottom, w, lh, c, rank, size);
    ProgressSkip(target, temp, w, c, i, 0, 1);
    var j := 1;
    while j < w - 1
      invariant 1 <= j <= w && (w >= 2 ==> j <= w - 1)
      invariant data[..] == Progress(target, temp, w, c, i, j, 0)
    {
      var edgeValue := EdgeValue(LocalWindow(temp, top, bottom, w, lh, c, i, j, 0));
      forall ch | 0 <= ch < c
        ensures At(target, Offset(w, c, i, j, ch)) == edgeValue
      {
        EdgeLocalPixel(temp, top, bottom, w, lh, c, rank, size, i, j, ch);
      }
      SetPixel(data, target, temp, w, lh, c, i, j, edgeValue);
      j := j + 1;
    }
    ProgressSkip(target, temp, w, c, i, j, w);
    ProgressNextRow(target, temp, w, lh, c, i);
  }

  // ---------------------------------------------------------------- brightness

  /** `brightness_filter_mpi`: one flat loop over the block's bytes. */
  method BrightnessMpi(data: array<Byte>, lh: nat, w: nat, c: nat, brightness: int)
    requires data.Length == lh * w * c
    modifies data
    ensures data[..] == Brightness(old(data[..]), brightness)
  {
    ghost var init := data[..];
    var localSize := lh * w * c;
    var i := 0;
    while i < localSize
      invariant 0 <= i <= localSize
      invariant forall k :: 0 <= k < i ==> data[k] == Brighten(init[k], brightness)
      invariant forall k :: i <= k < localSize ==> data[k] == init[k]
    {
      var newVal := data[i] as int + brightness;
      if newVal > 255 { newVal := 255; }
      if newVal < 0 { newVal := 0; }
      data[i] := newVal;
      i := i + 1;
    }
  }
}
