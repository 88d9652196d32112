/** What a rank's kernels leave in its block is the same part of the image
    that the serial filters compute on the whole image, provided the block is
    rows `s` to `s + lh - 1` of the image and the halos hold the image rows
    just above and just below it.  Rank 0 must own the first row and the
    last rank the last row, since those are the ranks that skip the image's
    border rows. */
module Fidelity {
  import opened Layout
  import opened Stencil
  import opened Reference
  import opened MpiFilters
  import opened Halo

  /** `block` is rows `s .. s + lh - 1` of the image `global`. */
  predicate InBlock(global: seq<Byte>, block: seq<Byte>, w: nat, h: nat, c: nat, s: nat, lh: nat) {
    w > 0 && c > 0 && |global| == h * (w * c) && s + lh <= h
    && (s + lh) * (w * c) == s * (w * c) + lh * (w * c) <= |global|
    && |block| == lh * (w * c)
    && (forall k :: 0 <= k < |block| ==> block[k] == At(global, s * (w * c) + k))
  }

  /** Besides, the rank owns at least one row, it is the first rank exactly
      when it owns the image's first row and the last exactly when it owns the
      last row, and its halos are the image rows next to its block where
      there are any. */
  predicate Aligned(global: seq<Byte>, block: seq<Byte>, top: seq<Byte>, bottom: seq<Byte>,
                    w: nat, h: nat, c: nat, s: nat, lh: nat, rank: int, size: int) {
    InBlock(global, block, w, h, c, s, lh) && lh >= 1
    && (rank == 0 <==> s == 0) && (rank == size - 1 <==> s + lh == h)
    && |top| == |bottom| == w * c
    && (s > 0 ==> top == Row(global, w * c, s - 1))
    && (s + lh < h ==> bottom == Row(global, w * c, s + lh))
  }

  /** Row `i` of the block is row `s + i` of the image. */
  lemma BlockRow(global: seq<Byte>, block: seq<Byte>, w: nat, h: nat, c: nat, s: nat, lh: nat, i: nat)
    requires InBlock(global, block, w, h, c, s, lh) && i < lh
    ensures Row(block, w * c, i) == Row(global, w * c, s + i)
  {
    var rs := w * c;
    forall x | 0 <= x < rs
      ensures Row(block, rs, i)[x] == Row(global, rs, s + i)[x]
    {
      RowIndexBound(lh, rs, i, x);
      assert (s + i) * rs == s * rs + i * rs;
      assert Row(block, rs, i)[x] == block[i * rs + x];
    }
  }

  /** A recomputed pixel reads, from the block or a halo, the byte of the
      image at the same place in the neighbourhood. */
  lemma LocalReadIsGlobal(global: seq<Byte>, block: seq<Byte>, top: seq<Byte>, bottom: seq<Byte>,
                          w: nat, h: nat, c: nat, s: nat, lh: nat, rank: int, size: int,
                          i: nat, j: nat, ch: nat, di: int, dj: int)
    requires Aligned(global, block, top, bottom, w, h, c, s, lh, rank, size)
    requires Recomputed(w, lh, rank, size, i, j) && ch < c && -1 <= di <= 1 && -1 <= dj <= 1
    ensures LocalRead(block, top, bottom, w, lh, c, i + di, j + dj, ch)
            == At(global, Offset(w, c, s + i, j, ch) + di * (w * c) + dj * c)
  {
    var x := (j + dj) * c + ch;
    RowOffsetBound(w, c, j + dj, ch);
    NeighbourOffset(w, c, s + i, j, ch, di, dj);
    OffsetSplit(w, c, s + i + di, j + dj, ch);
    if i + di < 0 {
      assert s + i + di == s - 1;
      assert top[x] == At(global, (s - 1) * (w * c) + x);
    } else if i + di >= lh {
      assert s + i + di == s + lh;
      assert bottom[x] == At(global, (s + lh) * (w * c) + x);
    } else {
      OffsetCoords(lh, w, c, i + di, j + dj, ch);
      OffsetShift(w, c, s, i + di, j + dj, ch);
    }
  }

  /** The neighbourhood a recomputed pixel reads is the image's
      neighbourhood of the same pixel. */
  lemma LocalWindowIsGlobal(global: seq<Byte>, block: seq<Byte>, top: seq<Byte>, bottom: seq<Byte>,
                            w: nat, h: nat, c: nat, s: nat, lh: nat, rank: int, size: int,
                            i: nat, j: nat, ch: nat)
    requires Aligned(global, block, top, bottom, w, h, c, s, lh, rank, size)
    requires Recomputed(w, lh, rank, size, i, j) && ch < c
    ensures LocalWindow(block, top, bottom, w, lh, c, i, j, ch)
            == GlobalWindow(global, w * c, c, Offset(w, c, s + i, j, ch))
  {
    LocalReadIsGlobal(global, block, top, bottom, w, h, c, s, lh, rank, size, i, j, ch, -1, -1);
    LocalReadIsGlobal(global, block, top, bottom, w, h, c, s, lh, rank, size, i, j, ch, -1, 0);
    LocalReadIsGlobal(global, block, top, bottom, w, h, c, s, lh, rank, size, i, j, ch, -1, 1);
    LocalReadIsGlobal(global, block, top, bottom, w, h, c, s, lh, rank, size, i, j, ch, 0, -1);
    LocalReadIsGlobal(global, block, top, bottom, w, h, c, s, lh, rank, size, i, j, ch, 0, 0);
    LocalReadIsGlobal(global, block, top, bottom, w, h, c, s, lh, rank, size, i, j, ch, 0, 1);
    LocalReadIsGlobal(global, block, top, bottom, w, h, c, s, lh, rank, size, i, j, ch, 1, -1);
    LocalReadIsGlobal(global, block, top, bottom, w, h, c, s, lh, rank, size, i, j, ch, 1, 0);
    LocalReadIsGlobal(global, block, top, bottom, w, h, c, s, lh, rank, size, i, j, ch, 1, 1);
  }

  /** Byte `k` of a block of `lh` rows sits at the same column and channel
      as byte `s * w * c + k` of the image, which is `s` rows further down. */
  lemma ShiftedCoords(w: nat, c: nat, lh: nat, s: nat, k: nat)
    requires w > 0 && c > 0 && k < lh * (w * c)
    ensures RowOf(w, c, k) < lh && ColOf(w, c, k) < w && ChanOf(w, c, k) < c
    ensures Offset(w, c, RowOf(w, c, k), ColOf(w, c, k), ChanOf(w, c, k)) == k
    ensures Offset(w, c, s + RowOf(w, c, k), ColOf(w, c, k), ChanOf(w, c, k)) == s * (w * c) + k
    ensures RowOf(w, c, s * (w * c) + k) == s + RowOf(w, c, k)
    ensures ColOf(w, c, s * (w * c) + k) == ColOf(w, c, k)
    ensures ChanOf(w, c, s * (w * c) + k) == ChanOf(w, c, k)
    ensures s * (w * c) + k < (s + lh) * (w * c)
  {
    CoordsOffset(lh, w, c, k);
    var i, j, ch := RowOf(w, c, k), ColOf(w, c, k), ChanOf(w, c, k);
    CoordsShift(w, c, s, k);
    OffsetShift(w, c, s, i, j, ch);
    RowOffsetBound(w, c, j, ch);
    OffsetSplit(w, c, s + i, j, ch);
    RowIndexBound(s + lh, w * c, s + i, j * c + ch);
  }

  /** Byte `k` of the block is byte `s * w * c + k` of the image, at the same
      column and channel, `s` rows further down; a pixel is recomputed in the
      block exactly when it is off the image's border. */
  lemma BlockCoords(global: seq<Byte>, block: seq<Byte>, top: seq<Byte>, bottom: seq<Byte>,
                    w: nat, h: nat, c: nat, s: nat, lh: nat, rank: int, size: int, k: nat)
    requires Aligned(global, block, top, bottom, w, h, c, s, lh, rank, size) && k < |block|
    ensures RowOf(w, c, k) < lh && ColOf(w, c, k) < w && ChanOf(w, c, k) < c
    ensures Offset(w, c, RowOf(w, c, k), ColOf(w, c, k), ChanOf(w, c, k)) == k
    ensures Offset(w, c, s + RowOf(w, c, k), ColOf(w, c, k), ChanOf(w, c, k)) == s * (w * c) + k
    ensures RowOf(w, c, s * (w * c) + k) == s + RowOf(w, c, k)
    ensures ColOf(w, c, s * (w * c) + k) == ColOf(w, c, k)
    ensures ChanOf(w, c, s * (w * c) + k) == ChanOf(w, c, k)
    ensures Recomputed(w, lh, rank, size, RowOf(w, c, k), ColOf(w, c, k))
            <==> Interior(w, h, s + RowOf(w, c, k), ColOf(w, c, k))
    ensures s * (w * c) + k < (s + lh) * (w * c) && block[k] == global[s * (w * c) + k]
  {
    ShiftedCoords(w, c, lh, s, k);
  }

  /** Byte `k` of the blurred block is the blurred image's byte at the same
      place. */
  lemma BlurByteAgrees(global: seq<Byte>, block: seq<Byte>, top: seq<Byte>, bottom: seq<Byte>,
                       w: nat, h: nat, c: nat, s: nat, lh: nat, rank: int, size: int, k: nat)
    requires Aligned(global, block, top, bottom, w, h, c, s, lh, rank, size) && k < |block|
    ensures BlurLocalAt(block, top, bottom, w, lh, c, rank, size, k) == BlurAt(global, w, h, c, s * (w * c) + k)
  {
    BlockCoords(global, block, top, bottom, w, h, c, s, lh, rank, size, k);
    var i, j, ch := RowOf(w, c, k), ColOf(w, c, k), ChanOf(w, c, k);
    if Recomputed(w, lh, rank, size, i, j) {
      LocalWindowIsGlobal(global, block, top, bottom, w, h, c, s, lh, rank, size, i, j, ch);
      assert BlurLocalAt(block, top, bottom, w, lh, c, rank, size, k)
             == BlurValue(GlobalWindow(global, w * c, c, s * (w * c) + k));
    }
  }

  /** The blurred block is the block's rows of the blurred image. */
  lemma BlurBlockAgrees(global: seq<Byte>, block: seq<Byte>, top: seq<Byte>, bottom: seq<Byte>,
                        w: nat, h: nat, c: nat, s: nat, lh: nat, rank: int, size: int)
    requires Aligned(global, block, top, bottom, w, h, c, s, lh, rank, size)
    ensures BlurLocal(block, top, bottom, w, lh, c, rank, size)
            == Blur(global, w, h, c)[s * (w * c) .. (s + lh) * (w * c)]
  {
    var local := BlurLocal(block, top, bottom, w, lh, c, rank, size);
    var serial := Blur(global, w, h, c)[s * (w * c) .. (s + lh) * (w * c)];
    forall k | 0 <= k < |block|
      ensures local[k] == serial[k]
    {
      BlurByteAgrees(global, block, top, bottom, w, h, c, s, lh, rank, size, k);
    }
  }

  /** Byte `k` of the edge block is the byte at the same place of the edge
      image whose border is the input's. */
  lemma EdgeByteAgrees(global: seq<Byte>, block: seq<Byte>, top: seq<Byte>, bottom: seq<Byte>,
                       w: nat, h: nat, c: nat, s: nat, lh: nat, rank: int, size: int, k: nat)
    requires Aligned(global, block, top, bottom, w, h, c, s, lh, rank, size) && k < |block|
    ensures EdgeLocalAt(block, top, bottom, w, lh, c, rank, size, k) == EdgeAt(global, global, w, h, c, s * (w * c) + k)
  {
    BlockCoords(global, block, top, bottom, w, h, c, s, lh, rank, size, k);
    var i, j, ch := RowOf(w, c, k), ColOf(w, c, k), ChanOf(w, c, k);
    var pixel := Offset(w, c, s + i, j, 0);
    assert pixel == s * (w * c) + k - ch;
    if Recomputed(w, lh, rank, size, i, j) {
      LocalWindowIsGlobal(global, block, top, bottom, w, h, c, s, lh, rank, size, i, j, 0);
      assert EdgeLocalAt(block, top, bottom, w, lh, c, rank, size, k)
             == EdgeValue(GlobalWindow(global, w * c, c, pixel));
    }
  }

  /** The edge block is the block's rows of the edge image whose border is
      the input image's, as the in-place kernel leaves it. */
  lemma EdgeBlockAgrees(global: seq<Byte>, block: seq<Byte>, top: seq<Byte>, bottom: seq<Byte>,
                        w: nat, h: nat, c: nat, s: nat, lh: nat, rank: int, size: int)
    requires Aligned(global, block, top, bottom, w, h, c, s, lh, rank, size)
    ensures EdgeLocal(block, top, bottom, w, lh, c, rank, size)
            == Edge(global, global, w, h, c)[s * (w * c) .. (s + lh) * (w * c)]
  {
    var local := EdgeLocal(block, top, bottom, w, lh, c, rank, size);
    var serial := Edge(global, global, w, h, c)[s * (w * c) .. (s + lh) * (w * c)];
    forall k | 0 <= k < |block|
      ensures local[k] == serial[k]
    {
      EdgeByteAgrees(global, block, top, bottom, w, h, c, s, lh, rank, size, k);
    }
  }

  /** Byte `k` of the grayscale block is the grayscale image's byte at the
      same place: a pixel's channels never straddle two rows. */
  lemma GrayscaleByteAgrees(luma: Luma, global: seq<Byte>, block: seq<Byte>,
                            w: nat, h: nat, c: nat, s: nat, lh: nat, k: nat)
    requires InBlock(global, block, w, h, c, s, lh) && k < |block|
    ensures GrayscaleAt(luma, block, block, w, c, k) == GrayscaleAt(luma, global, global, w, c, s * (w * c) + k)
  {
    CoordsShift(w, c, s, k);
    PixelInside(lh, w, c, k);
    var p := k - ChanOf(w, c, k);
    forall x | p <= x < p + c
      ensures At(block, x) == At(global, s * (w * c) + x)
    {
    }
  }

  /** The grayscale block is the block's rows of the grayscale image. */
  lemma GrayscaleBlockAgrees(luma: Luma, global: seq<Byte>, block: seq<Byte>,
                             w: nat, h: nat, c: nat, s: nat, lh: nat)
    requires InBlock(global, block, w, h, c, s, lh)
    ensures Grayscale(luma, block, block, w, c)
            == Grayscale(luma, global, global, w, c)[s * (w * c) .. (s + lh) * (w * c)]
  {
    var local := Grayscale(luma, block, block, w, c);
    var serial := Grayscale(luma, global, global, w, c)[s * (w * c) .. (s + lh) * (w * c)];
    forall k | 0 <= k < |block|
      ensures local[k] == serial[k]
    {
      GrayscaleByteAgrees(luma, global, block, w, h, c, s, lh, k);
    }
  }

  /** Brightening the block gives the block's rows of the brightened image. */
  lemma BrightnessBlockAgrees(global: seq<Byte>, block: seq<Byte>,
                              w: nat, h: nat, c: nat, s: nat, lh: nat, delta: int)
    requires InBlock(global, block, w, h, c, s, lh)
    ensures Brightness(block, delta) == Brightness(global, delta)[s * (w * c) .. (s + lh) * (w * c)]
  {
    forall k | 0 <= k < |block|
      ensures Brightness(block, delta)[k] == Brightness(global, delta)[s * (w * c) + k]
    {
    }
  }
}
