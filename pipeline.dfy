/** The two programs end to end, on an image already in memory: the filter
    name is looked up as `main` does, then the MPI program partitions the
    image, scatters it, exchanges halos, runs the kernel on every rank and
    gathers the blocks back into the root's buffer, while the serial program
    runs its filter from the input into a fresh zeroed output.  The ranks are
    simulated one after another: a rank only ever touches its own block, and
    the halos are taken from the blocks before any kernel runs, as the
    `MPI_Waitall` before the kernel call guarantees. */
module Pipeline {
  import opened Layout
  import opened Stencil
  import opened Reference
  import opened MpiFilters
  import opened Partition
  import opened Collective
  import opened Halo
  import opened Fidelity

  datatype Option<T> = None | Some(value: T)

  /** The filters both programs offer. */
  datatype Filter = GrayscaleOp | BlurOp | EdgeOp | BrightenOp

  /** The command-line name of each filter. */
  function FilterName(f: Filter): string {
    match f
    case GrayscaleOp => "grayscale"
    case BlurOp => "blur"
    case EdgeOp => "edge"
    case BrightenOp => "brighten"
  }

  /** The chain of `strcmp` tests in `main`: a name selects a filter exactly
      when it is that filter's name. */
  function ParseFilter(name: string): (selected: Option<Filter>)
    ensures forall f :: selected == Some(f) <==> name == FilterName(f)
  {
    if name == "grayscale" then Some(GrayscaleOp)
    else if name == "blur" then Some(BlurOp)
    else if name == "edge" then Some(EdgeOp)
    else if name == "brighten" then Some(BrightenOp)
    else None
  }

  /** The amount `main` passes to the brightness filter. */
  const Brightening: int := 50

  /** The image the MPI program leaves in the root's buffer.  Its kernels
      work in place, so the edge image keeps the input on its border. */
  function MpiResult(f: Filter, luma: Luma, img: seq<Byte>, w: nat, h: nat, c: nat): seq<Byte>
    requires w > 0 && c > 0
  {
    match f
    case GrayscaleOp => Grayscale(luma, img, img, w, c)
    case BlurOp => Blur(img, w, h, c)
    case EdgeOp => Edge(img, img, w, h, c)
    case BrightenOp => Brightness(img, Brightening)
  }

  /** The image the serial program writes into its zeroed output. */
  function SerialResult(f: Filter, luma: Luma, img: seq<Byte>, w: nat, h: nat, c: nat): seq<Byte>
    requires w > 0 && c > 0
  {
    match f
    case GrayscaleOp => Grayscale(luma, img, Zeros(|img|), w, c)
    case BlurOp => Blur(img, w, h, c)
    case EdgeOp => Edge(img, Zeros(|img|), w, h, c)
    case BrightenOp => Brightness(img, Brightening)
  }

  /** The block one rank holds after its kernel. */
  function LocalResult(f: Filter, luma: Luma, block: seq<Byte>, top: seq<Byte>, bottom: seq<Byte>,
                       w: nat, lh: nat, c: nat, rank: int, size: int): seq<Byte>
    requires w > 0 && c > 0
  {
    match f
    case GrayscaleOp => Grayscale(luma, block, block, w, c)
    case BlurOp => BlurLocal(block, top, bottom, w, lh, c, rank, size)
    case EdgeOp => EdgeLocal(block, top, bottom, w, lh, c, rank, size)
    case BrightenOp => Brightness(block, Brightening)
  }

  /** The blocks `MPI_Scatterv` hands the ranks, one per rank. */
  function Parts(img: seq<Byte>, w: nat, h: nat, c: nat, size: nat): (parts: seq<seq<Byte>>)
    requires size > 0 && |img| == h * (w * c)
    ensures |parts| == size
  {
    PartitionTiles(w, h, c, size);
    Scatterv(img, Counts(w, h, c, size), Displs(w, h, c, size))
  }

  function Heights(h: nat, size: nat): (heights: seq<nat>)
    requires size > 0
    ensures |heights| == size
  {
    seq(size, r requires 0 <= r < size => LocalHeight(h, size, r))
  }

  /** A piece that starts at row `s` and holds `lh` rows of `rs` bytes is
      those rows of the buffer. */
  lemma PieceRows(buf: seq<Byte>, counts: seq<nat>, displs: seq<nat>, r: nat, s: nat, lh: nat, rs: int)
    requires Tiles(counts, displs, |buf|) && r < |counts|
    requires displs[r] == s * rs && counts[r] == lh * rs
    ensures (s + lh) * rs == s * rs + lh * rs <= |buf|
    ensures Scatterv(buf, counts, displs)[r] == buf[s * rs .. (s + lh) * rs]
  {
    SumPrefix(counts, r);
    Distribute(s, lh, rs);
  }

  /** A piece that holds rows `s .. s + lh` of an image lies in the image
      as the fidelity lemmas need it. */
  lemma PieceInBlock(global: seq<Byte>, counts: seq<nat>, displs: seq<nat>, r: nat,
                     w: nat, h: nat, c: nat, s: nat, lh: nat)
    requires w > 0 && c > 0 && |global| == h * (w * c) && s + lh <= h
    requires Tiles(counts, displs, |global|) && r < |counts|
    requires displs[r] == s * (w * c) && counts[r] == lh * (w * c)
    ensures InBlock(global, Scatterv(global, counts, displs)[r], w, h, c, s, lh)
  {
    PieceRows(global, counts, displs, r, s, lh, w * c);
  }

  /** Rank `r`'s block is its rows of the image. */
  lemma RankInBlock(img: seq<Byte>, w: nat, h: nat, c: nat, size: nat, r: nat)
    requires w > 0 && c > 0 && size > 0 && |img| == h * (w * c) && r < size
    ensures InBlock(img, Parts(img, w, h, c, size)[r], w, h, c, RowStart(h, size, r), LocalHeight(h, size, r))
  {
    RowsInside(h, size, r);
    PartitionTiles(w, h, c, size);
    PieceInBlock(img, Counts(w, h, c, size), Displs(w, h, c, size), r,
                 w, h, c, RowStart(h, size, r), LocalHeight(h, size, r));
  }

  /** The top halo of rank `r` is the last row of the block before it. */
  lemma PreviousBlockHalo(img: seq<Byte>, parts: seq<seq<Byte>>, heights: seq<nat>,
                          w: nat, h: nat, c: nat, r: nat, s: nat, lh: nat)
    requires |heights| == |parts| && 0 < r < |parts| && heights[r - 1] == lh >= 1
    requires InBlock(img, parts[r - 1], w, h, c, s, lh)
    ensures HaloTop(parts, heights, w * c, r) == Row(img, w * c, s + lh - 1)
  {
    BlockRow(img, parts[r - 1], w, h, c, s, lh, lh - 1);
  }

  /** The bottom halo of rank `r` is the first row of the block after it. */
  lemma NextBlockHalo(img: seq<Byte>, parts: seq<seq<Byte>>, heights: seq<nat>,
                      w: nat, h: nat, c: nat, r: nat, s: nat, lh: nat)
    requires |heights| == |parts| && r + 1 < |parts| && lh >= 1
    requires InBlock(img, parts[r + 1], w, h, c, s, lh)
    ensures HaloBottom(parts, heights, w * c, r) == Row(img, w * c, s)
  {
    var first: nat := 0;
    BlockRow(img, parts[r + 1], w, h, c, s, lh, first);
    assert s + first == s;
  }

  /** After the exchange, the top halo of rank `r > 0` is the image row just
      above its block: the last row of rank `r - 1`. */
  lemma HaloTopIsRow(img: seq<Byte>, w: nat, h: nat, c: nat, size: nat, r: nat)
    requires w > 0 && c > 0 && 0 < size <= h && |img| == h * (w * c) && 0 < r < size
    ensures HaloTop(Parts(img, w, h, c, size), Heights(h, size), w * c, r)
            == Row(img, w * c, RowStart(h, size, r) - 1)
  {
    var above, lh := RowStart(h, size, r - 1), LocalHeight(h, size, r - 1);
    assert RowStart(h, size, r) == above + lh;
    RankInBlock(img, w, h, c, size, r - 1);
    NoEmptyRank(h, size, r - 1);
    PreviousBlockHalo(img, Parts(img, w, h, c, size), Heights(h, size), w, h, c, r, above, lh);
  }

  /** After the exchange, the bottom halo of rank `r < size - 1` is the image
      row just below its block: the first row of rank `r + 1`. */
  lemma HaloBottomIsRow(img: seq<Byte>, w: nat, h: nat, c: nat, size: nat, r: nat)
    requires w > 0 && c > 0 && 0 < size <= h && |img| == h * (w * c) && r + 1 < size
    ensures HaloBottom(Parts(img, w, h, c, size), Heights(h, size), w * c, r)
            == Row(img, w * c, RowStart(h, size, r + 1))
  {
    RankInBlock(img, w, h, c, size, r + 1);
    NoEmptyRank(h, size, r + 1);
    NextBlockHalo(img, Parts(img, w, h, c, size), Heights(h, size), w, h, c, r,
                  RowStart(h, size, r + 1), LocalHeight(h, size, r + 1));
  }

  /** With no more ranks than rows, rank `r`'s block and the halos the
      exchange delivers to it meet everything the kernels need to agree with
      the serial filters (`AlignedBlock` turns these facts into `Aligned`):
      the block is a non-empty run of image rows ending where rank `r + 1`'s
      rows begin, the first and the last rank are the ones at the image's
      edges, and each halo is the image row just outside the block. */
  lemma RankAligned(img: seq<Byte>, w: nat, h: nat, c: nat, size: nat, r: nat)
    requires w > 0 && c > 0 && 0 < size <= h && |img| == h * (w * c) && r < size
    ensures InBlock(img, Parts(img, w, h, c, size)[r], w, h, c, RowStart(h, size, r), LocalHeight(h, size, r))
    ensures LocalHeight(h, size, r) >= 1
    ensures RowStart(h, size, r + 1) == RowStart(h, size, r) + LocalHeight(h, size, r)
    ensures r == 0 <==> RowStart(h, size, r) == 0
    ensures r == size - 1 <==> RowStart(h, size, r + 1) == h
    ensures RowStart(h, size, r) > 0 ==>
      HaloTop(Parts(img, w, h, c, size), Heights(h, size), w * c, r) == Row(img, w * c, RowStart(h, size, r) - 1)
    ensures RowStart(h, size, r + 1) < h ==>
      HaloBottom(Parts(img, w, h, c, size), Heights(h, size), w * c, r) == Row(img, w * c, RowStart(h, size, r + 1))
  {
    RankInBlock(img, w, h, c, size, r);
    NoEmptyRank(h, size, r);
    FirstRank(h, size, r);
    LastRank(h, size, r);
    RowsInside(h, size, r);
    TopAligned(img, w, h, c, size, r);
    BottomAligned(img, w, h, c, size, r);
  }

  lemma TopAligned(img: seq<Byte>, w: nat, h: nat, c: nat, size: nat, r: nat)
    requires w > 0 && c > 0 && 0 < size <= h && |img| == h * (w * c) && r < size
    ensures RowStart(h, size, r) > 0 ==>
      HaloTop(Parts(img, w, h, c, size), Heights(h, size), w * c, r) == Row(img, w * c, RowStart(h, size, r) - 1)
  {
    if r > 0 {
      HaloTopIsRow(img, w, h, c, size, r);
    }
  }

  lemma BottomAligned(img: seq<Byte>, w: nat, h: nat, c: nat, size: nat, r: nat)
    requires w > 0 && c > 0 && 0 < size <= h && |img| == h * (w * c) && r < size
    ensures RowStart(h, size, r + 1) < h ==>
      HaloBottom(Parts(img, w, h, c, size), Heights(h, size), w * c, r) == Row(img, w * c, RowStart(h, size, r + 1))
  {
    if r + 1 < size {
      HaloBottomIsRow(img, w, h, c, size, r);
    } else {
      RowStartTotal(h, size);
    }
  }

  /** The conditions of `Aligned`, with the row after the block named. */
  lemma AlignedBlock(img: seq<Byte>, block: seq<Byte>, top: seq<Byte>, bottom: seq<Byte>,
                     w: nat, h: nat, c: nat, s: nat, lh: nat, next: nat, rank: nat, size: nat)
    requires InBlock(img, block, w, h, c, s, lh) && lh >= 1 && next == s + lh
    requires (rank == 0 <==> s == 0) && (rank == size - 1 <==> next == h)
    requires |top| == |bottom| == w * c
    requires s > 0 ==> top == Row(img, w * c, s - 1)
    requires next < h ==> bottom == Row(img, w * c, next)
    ensures Aligned(img, block, top, bottom, w, h, c, s, lh, rank, size)
  {
  }

  /** What rank `r` holds after its kernel is its rows of the image the MPI
      program promises. */
  lemma RankAgrees(f: Filter, luma: Luma, img: seq<Byte>, w: nat, h: nat, c: nat, size: nat, r: nat)
    requires w > 0 && c > 0 && size > 0 && |img| == h * (w * c) && r < size
    requires f == BlurOp || f == EdgeOp ==> size <= h
    ensures |MpiResult(f, luma, img, w, h, c)| == |img|
    ensures LocalResult(f, luma, Parts(img, w, h, c, size)[r],
                        HaloTop(Parts(img, w, h, c, size), Heights(h, size), w * c, r),
                        HaloBottom(Parts(img, w, h, c, size), Heights(h, size), w * c, r),
                        w, LocalHeight(h, size, r), c, r, size)
            == Parts(MpiResult(f, luma, img, w, h, c), w, h, c, size)[r]
  {
    var parts, heights := Parts(img, w, h, c, size), Heights(h, size);
    var s, lh := RowStart(h, size, r), LocalHeight(h, size, r);
    var top, bottom := HaloTop(parts, heights, w * c, r), HaloBottom(parts, heights, w * c, r);
    var target := MpiResult(f, luma, img, w, h, c);
    assert |target| == |img|;
    PartitionTiles(w, h, c, size);
    PieceRows(target, Counts(w, h, c, size), Displs(w, h, c, size), r, s, lh, w * c);
    RankInBlock(img, w, h, c, size, r);
    match f {
      case GrayscaleOp =>
        GrayscaleBlockAgrees(luma, img, parts[r], w, h, c, s, lh);
      case BlurOp =>
        RankAligned(img, w, h, c, size, r);
        AlignedBlock(img, parts[r], top, bottom, w, h, c, s, lh, RowStart(h, size, r + 1), r, size);
        BlurBlockAgrees(img, parts[r], top, bottom, w, h, c, s, lh, r, size);
      case EdgeOp =>
        RankAligned(img, w, h, c, size, r);
        AlignedBlock(img, parts[r], top, bottom, w, h, c, s, lh, RowStart(h, size, r + 1), r, size);
        EdgeBlockAgrees(img, parts[r], top, bottom, w, h, c, s, lh, r, size);
      case BrightenOp =>
        BrightnessBlockAgrees(img, parts[r], w, h, c, s, lh, Brightening);
    }
  }

  /** The MPI program as a whole: status 1 and no filtering for an unknown
      filter name, otherwise the gathered image.  Blur and edge need every
      rank to own a row. */
  method RunMpi(img: seq<Byte>, w: nat, h: nat, c: nat, size: nat, filterName: string, luma: Luma)
    returns (status: int, result: seq<Byte>)
    requires w > 0 && c > 0 && size > 0 && |img| == h * (w * c)
    requires ParseFilter(filterName) == Some(BlurOp) || ParseFilter(filterName) == Some(EdgeOp) ==> size <= h
    ensures ParseFilter(filterName).None? ==> status == 1 && result == img
    ensures ParseFilter(filterName).Some? ==>
      status == 0 && result == MpiResult(ParseFilter(filterName).value, luma, img, w, h, c)
  {
    var filter := ParseFilter(filterName);
    if filter.None? {
      return 1, img;
    }
    var f := filter.value;
    MulMonotone(0, w, c);
    var sendcounts, displs := ComputeDisplacements(w, h, c, size);
    PartitionTiles(w, h, c, size);
    var parts := Scatterv(img, sendcounts[..], displs[..]);
    var heights := Heights(h, size);
    assert parts == Parts(img, w, h, c, size);
    ghost var target := MpiResult(f, luma, img, w, h, c);
    assert |target| == |img| by {
      RankAgrees(f, luma, img, w, h, c, size, 0);
    }
    var blocks: seq<seq<Byte>> := [];
    for r := 0 to size
      invariant |blocks| == r
      invariant forall q :: 0 <= q < r ==> blocks[q] == Parts(target, w, h, c, size)[q]
    {
      RankAgrees(f, luma, img, w, h, c, size, r);
      RankInBlock(img, w, h, c, size, r);
      // Only the blur and edge kernels read these rows; the C program
      // allocates and exchanges them in those two branches alone.
      var top := HaloTop(parts, heights, w * c, r);
      var bottom := HaloBottom(parts, heights, w * c, r);
      var out := RunRank(f, luma, parts[r], top, bottom, w, heights[r], c, r, size);
      blocks := blocks + [out];
    }
    GatherScatter(target, Counts(w, h, c, size), Displs(w, h, c, size));
    assert blocks == Parts(target, w, h, c, size);
    return 0, Gatherv(blocks);
  }

  /** One rank: its block is copied into the buffer the kernel works on in
      place. */
  method RunRank(f: Filter, luma: Luma, block: seq<Byte>, top: seq<Byte>, bottom: seq<Byte>,
                 w: nat, lh: nat, c: nat, rank: nat, size: nat) returns (out: seq<Byte>)
    requires w > 0 && c > 0 && |block| == lh * (w * c) && |top| == |bottom| == w * c
    ensures out == LocalResult(f, luma, block, top, bottom, w, lh, c, rank, size)
  {
    MulAssoc(lh, w, c);
    var data := new Byte[|block|](k requires 0 <= k < |block| => block[k]);
    assert data[..] == block;
    match f {
      case GrayscaleOp => GrayscaleMpi(data, lh, w, c, luma);
      case BlurOp => GaussianBlurMpi(data, top, bottom, lh, w, c, rank, size);
      case EdgeOp => SobelEdgeMpi(data, top, bottom, lh, w, c, rank, size);
      case BrightenOp => BrightnessMpi(data, lh, w, c, Brightening);
    }
    out := data[..];
  }

  /** The serial program as a whole: the output starts zeroed, as
      `create_image` allocates it. */
  method RunSerial(img: seq<Byte>, w: nat, h: nat, c: nat, filterName: string, luma: Luma)
    returns (status: int, result: seq<Byte>)
    requires w > 0 && c > 0 && |img| == h * (w * c)
    ensures ParseFilter(filterName).None? ==> status == 1
    ensures ParseFilter(filterName).Some? ==>
      status == 0 && result == SerialResult(ParseFilter(filterName).value, luma, img, w, h, c)
  {
    MulAssoc(w, h, c);
    MulAssoc(h, w, c);
    var input := new Byte[|img|](k requires 0 <= k < |img| => img[k]);
    var output := new Byte[|img|](k => 0);
    assert input[..] == img;
    assert output[..] == Zeros(|img|);
    var filter := ParseFilter(filterName);
    if filter.None? {
      return 1, [];
    }
    match filter.value {
      case GrayscaleOp => GrayscaleFilter(input, output, w, h, c, luma);
      case BlurOp => GaussianBlurFilter(input, output, w, h, c);
      case EdgeOp => SobelEdgeFilter(input, output, w, h, c);
      case BrightenOp => BrightnessFilter(input, output, w, h, c, Brightening);
    }
    return 0, output[..];
  }

  /** The two programs agree on the blur and the brightness, and on the
      grayscale of images with at most four channels; the edge images agree
      off the border, where the MPI program keeps the input and the serial
      one leaves zeros. */
  lemma MpiAgreesWithSerial(f: Filter, luma: Luma, img: seq<Byte>, w: nat, h: nat, c: nat)
    requires w > 0 && c > 0 && |img| == h * (w * c)
    ensures f != EdgeOp && (f == GrayscaleOp ==> c <= 4) ==>
      MpiResult(f, luma, img, w, h, c) == SerialResult(f, luma, img, w, h, c)
    ensures f == EdgeOp ==> forall k :: 0 <= k < |img| ==>
      if Interior(w, h, RowOf(w, c, k), ColOf(w, c, k))
      then MpiResult(f, luma, img, w, h, c)[k] == SerialResult(f, luma, img, w, h, c)[k]
      else MpiResult(f, luma, img, w, h, c)[k] == img[k] && SerialResult(f, luma, img, w, h, c)[k] == 0
  {
    if f == GrayscaleOp && c <= 4 {
      forall k | 0 <= k < |img|
        ensures Grayscale(luma, img, img, w, c)[k] == Grayscale(luma, img, Zeros(|img|), w, c)[k]
      {
        CoordsOffset(h, w, c, k);
      }
    }
  }
}
