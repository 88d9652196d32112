/** The state of a buffer part-way through a kernel's nested row, column and
    channel loops: the bytes already visited hold the kernel's result, the
    others still hold what the buffer held before the kernel began.  Every
    kernel's loop invariant is an instance of `Progress`, and the lemmas here
    are the steps of its loops. */
module Sweep {
  import opened Layout

  /** `init` with every byte that precedes channel `ch` of pixel `(i, j)`
      replaced by the byte of `target`. */
  ghost function Progress(target: seq<Byte>, init: seq<Byte>, w: nat, c: nat, i: int, j: int, ch: int)
    : (s: seq<Byte>)
    requires w > 0 && c > 0 && |target| == |init|
    ensures |s| == |init|
  {
    seq(|init|, k requires 0 <= k < |init| =>
      if Precedes(w, c, k, i, j, ch) then target[k] else init[k])
  }

  /** Before the first pixel nothing has been written. */
  lemma ProgressStart(target: seq<Byte>, init: seq<Byte>, w: nat, c: nat)
    requires w > 0 && c > 0 && |target| == |init|
    ensures Progress(target, init, w, c, 0, 0, 0) == init
  {
  }

  /** After the last row everything has been written. */
  lemma ProgressDone(target: seq<Byte>, init: seq<Byte>, w: nat, h: nat, c: nat)
    requires w > 0 && c > 0 && |target| == |init| == h * (w * c)
    ensures Progress(target, init, w, c, h, 0, 0) == target
  {
    AllCoords(h, w, c, |init|);
  }

  /** Writing channel `ch` of pixel `(i, j)` moves the progress one byte on. */
  lemma ProgressStep(target: seq<Byte>, init: seq<Byte>, w: nat, h: nat, c: nat, i: nat, j: nat, ch: nat)
    requires w > 0 && c > 0 && |target| == |init| == h * (w * c)
    requires i < h && j < w && ch < c
    ensures 0 <= Offset(w, c, i, j, ch) < |init|
    ensures Progress(target, init, w, c, i, j, ch + 1)
      == Progress(target, init, w, c, i, j, ch)[Offset(w, c, i, j, ch) := target[Offset(w, c, i, j, ch)]]
  {
    OffsetCoords(h, w, c, i, j, ch);
    AllCoords(h, w, c, |init|);
  }

  /** The channels of pixel `(i, j)` not yet visited still hold `init`'s
      bytes; an in-place kernel reads them before it overwrites them. */
  lemma ProgressPending(target: seq<Byte>, init: seq<Byte>, w: nat, h: nat, c: nat,
                        i: nat, j: nat, ch0: nat, ch: nat)
    requires w > 0 && c > 0 && |target| == |init| == h * (w * c)
    requires i < h && j < w && ch0 <= ch < c
    ensures 0 <= Offset(w, c, i, j, ch) < |init|
    ensures Progress(target, init, w, c, i, j, ch0)[Offset(w, c, i, j, ch)] == init[Offset(w, c, i, j, ch)]
  {
    OffsetCoords(h, w, c, i, j, ch);
  }

  /** After the last channel of a pixel comes the next pixel. */
  lemma ProgressNextPixel(target: seq<Byte>, init: seq<Byte>, w: nat, h: nat, c: nat, i: int, j: int)
    requires w > 0 && c > 0 && |target| == |init| == h * (w * c)
    ensures Progress(target, init, w, c, i, j, c) == Progress(target, init, w, c, i, j + 1, 0)
  {
    AllCoords(h, w, c, |init|);
  }

  /** After the last pixel of a row comes the next row. */
  lemma ProgressNextRow(target: seq<Byte>, init: seq<Byte>, w: nat, h: nat, c: nat, i: int)
    requires w > 0 && c > 0 && |target| == |init| == h * (w * c)
    ensures Progress(target, init, w, c, i, w, 0) == Progress(target, init, w, c, i + 1, 0, 0)
  {
    AllCoords(h, w, c, |init|);
  }

  /** Pixels `j1 .. j2 - 1` of row `i` where the kernel leaves the buffer as it
      was can be passed over without writing. */
  lemma ProgressSkip(target: seq<Byte>, init: seq<Byte>, w: nat, c: nat, i: int, j1: int, j2: int)
    requires w > 0 && c > 0 && |target| == |init| && j1 <= j2
    requires forall k: nat :: k < |init| && RowOf(w, c, k) == i && j1 <= ColOf(w, c, k) < j2
               ==> target[k] == init[k]
    ensures Progress(target, init, w, c, i, j1, 0) == Progress(target, init, w, c, i, j2, 0)
  {
  }

  /** The channels of pixel `(i, j)` from `ch` on, where the kernel leaves
      the buffer as it was, can be passed over without writing. */
  lemma ProgressSkipChannels(target: seq<Byte>, init: seq<Byte>, w: nat, c: nat, i: int, j: int, ch: int)
    requires w > 0 && c > 0 && |target| == |init| && ch <= c
    requires forall k: nat :: k < |init| && RowOf(w, c, k) == i && ColOf(w, c, k) == j && ch <= ChanOf(w, c, k)
               ==> target[k] == init[k]
    ensures Progress(target, init, w, c, i, j, ch) == Progress(target, init, w, c, i, j, c)
  {
  }

  /** Rows `i1 .. i2 - 1` where the kernel leaves the buffer as it was can be
      passed over without writing. */
  lemma ProgressSkipRows(target: seq<Byte>, init: seq<Byte>, w: nat, c: nat, i1: int, i2: int)
    requires w > 0 && c > 0 && |target| == |init| && i1 <= i2
    requires forall k: nat :: k < |init| && i1 <= RowOf(w, c, k) < i2 ==> target[k] == init[k]
    ensures Progress(target, init, w, c, i1, 0, 0) == Progress(target, init, w, c, i2, 0, 0)
  {
  }

  /** A kernel that writes, channel by channel, both end pixels of row `i`
      (as the serial blur's border copy does) has, after `ch` channels, the
      progress of the rows above it plus those `2 * ch` bytes. */
  ghost function EndsProgress(target: seq<Byte>, init: seq<Byte>, w: nat, c: nat, i: int, ch: int)
    : (s: seq<Byte>)
    requires w > 0 && c > 0 && |target| == |init|
    ensures |s| == |init|
  {
    seq(|init|, k requires 0 <= k < |init| =>
      if RowOf(w, c, k) < i
         || (RowOf(w, c, k) == i && ChanOf(w, c, k) < ch
             && (ColOf(w, c, k) == 0 || ColOf(w, c, k) == w - 1))
      then target[k] else init[k])
  }

  lemma EndsStart(target: seq<Byte>, init: seq<Byte>, w: nat, c: nat, i: int)
    requires w > 0 && c > 0 && |target| == |init|
    ensures EndsProgress(target, init, w, c, i, 0) == Progress(target, init, w, c, i, 0, 0)
  {
  }

  lemma EndsStep(target: seq<Byte>, init: seq<Byte>, w: nat, h: nat, c: nat, i: nat, ch: nat)
    requires w > 0 && c > 0 && |target| == |init| == h * (w * c)
    requires i < h && ch < c
    ensures 0 <= Offset(w, c, i, 0, ch) < |init| && 0 <= Offset(w, c, i, w - 1, ch) < |init|
    ensures EndsProgress(target, init, w, c, i, ch + 1)
      == EndsProgress(target, init, w, c, i, ch)
           [Offset(w, c, i, 0, ch) := target[Offset(w, c, i, 0, ch)]]
           [Offset(w, c, i, w - 1, ch) := target[Offset(w, c, i, w - 1, ch)]]
  {
    OffsetCoords(h, w, c, i, 0, ch);
    OffsetCoords(h, w, c, i, w - 1, ch);
    AllCoords(h, w, c, |init|);
  }

  /** Once both ends are written, the row is done if the kernel leaves its
      other pixels as they were. */
  lemma EndsDone(target: seq<Byte>, init: seq<Byte>, w: nat, h: nat, c: nat, i: int)
    requires w > 0 && c > 0 && |target| == |init| == h * (w * c)
    requires forall k: nat :: k < |init| && RowOf(w, c, k) == i && 0 < ColOf(w, c, k) < w - 1
               ==> target[k] == init[k]
    ensures EndsProgress(target, init, w, c, i, c) == Progress(target, init, w, c, i + 1, 0, 0)
  {
    AllCoords(h, w, c, |init|);
  }

  // ------------------------------------------------------------ row steps

  /** `prev` with pixels `j1 .. j2 - 1` of row `i` taken from `target`: the
      buffer after one iteration of a row loop that writes those pixels. */
  ghost function RowWritten(target: seq<Byte>, prev: seq<Byte>, w: nat, c: nat, i: int, j1: int, j2: int)
    : (s: seq<Byte>)
    requires w > 0 && c > 0 && |target| == |prev|
    ensures |s| == |prev|
  {
    seq(|prev|, k requires 0 <= k < |prev| =>
      if RowOf(w, c, k) == i && j1 <= ColOf(w, c, k) < j2 then target[k] else prev[k])
  }

  /** The rows `lo .. hi - 1` in increasing order. */
  function Rows(lo: int, hi: int): (rows: seq<int>)
    requires lo <= hi
    ensures |rows| == hi - lo
    ensures forall x :: 0 <= x < |rows| ==> rows[x] == lo + x
    ensures forall r :: r in rows <==> lo <= r < hi
    decreases hi - lo
  {
    if lo == hi then [] else Rows(lo, hi - 1) + [hi - 1]
  }

  /** `prev` after the row steps of `rows`, run one after another in that
      order. */
  ghost function RowsWritten(target: seq<Byte>, prev: seq<Byte>, w: nat, c: nat, rows: seq<int>,
                             j1: int, j2: int): (s: seq<Byte>)
    requires w > 0 && c > 0 && |target| == |prev|
    ensures |s| == |prev|
    decreases |rows|
  {
    if rows == [] then prev
    else RowWritten(target, RowsWritten(target, prev, w, c, rows[..|rows| - 1], j1, j2),
                    w, c, rows[|rows| - 1], j1, j2)
  }

  /** After the steps of `rows`, a byte holds `target`'s value exactly when
      its row is one of `rows` and its column is one the steps write:
      neither the order of the steps nor a repeated step matters. */
  lemma {:induction false} RowsWrittenAt(target: seq<Byte>, prev: seq<Byte>, w: nat, c: nat,
                                         rows: seq<int>, j1: int, j2: int)
    requires w > 0 && c > 0 && |target| == |prev|
    ensures forall k :: 0 <= k < |prev| ==>
      RowsWritten(target, prev, w, c, rows, j1, j2)[k]
      == if RowOf(w, c, k) in rows && j1 <= ColOf(w, c, k) < j2 then target[k] else prev[k]
    decreases |rows|
  {
    if rows != [] {
      var front := rows[..|rows| - 1];
      RowsWrittenAt(target, prev, w, c, front, j1, j2);
      forall k | 0 <= k < |prev|
        ensures RowOf(w, c, k) in rows <==> RowOf(w, c, k) in front || RowOf(w, c, k) == rows[|rows| - 1]
      {
        assert rows == front + [rows[|rows| - 1]];
      }
    }
  }

  /** Row steps that write disjoint rows from a fixed `target` give the same
      buffer in any order: the sequential loop and any schedule of its
      iterations over threads agree. */
  lemma RowOrderIrrelevant(target: seq<Byte>, prev: seq<Byte>, w: nat, c: nat,
                           rows1: seq<int>, rows2: seq<int>, j1: int, j2: int)
    requires w > 0 && c > 0 && |target| == |prev|
    requires forall r :: r in rows1 <==> r in rows2
    ensures RowsWritten(target, prev, w, c, rows1, j1, j2) == RowsWritten(target, prev, w, c, rows2, j1, j2)
  {
    RowsWrittenAt(target, prev, w, c, rows1, j1, j2);
    RowsWrittenAt(target, prev, w, c, rows2, j1, j2);
  }

  /** The row loop `for (i = lo; i < hi; i++)` after `i - lo` iterations,
      one more. */
  lemma RowsNext(target: seq<Byte>, prev: seq<Byte>, w: nat, c: nat, lo: int, i: int, j1: int, j2: int)
    requires w > 0 && c > 0 && |target| == |prev| && lo <= i
    ensures RowsWritten(target, prev, w, c, Rows(lo, i + 1), j1, j2)
            == RowWritten(target, RowsWritten(target, prev, w, c, Rows(lo, i), j1, j2), w, c, i, j1, j2)
  {
    assert Rows(lo, i + 1)[..i - lo] == Rows(lo, i);
  }

  /** Running one row step from any prior buffer in the loop order of the
      sweep: the rows above `i` are passed over, the row is swept, the rows
      below are passed over. */
  lemma RowStepStart(target: seq<Byte>, prev: seq<Byte>, w: nat, c: nat, i: int, j1: int, j2: int)
    requires w > 0 && c > 0 && |target| == |prev| && i >= 0 && j1 >= 0
    ensures Progress(RowWritten(target, prev, w, c, i, j1, j2), prev, w, c, i, j1, 0) == prev
  {
    var t := RowWritten(target, prev, w, c, i, j1, j2);
    ProgressStart(t, prev, w, c);
    ProgressSkipRows(t, prev, w, c, 0, i);
    ProgressSkip(t, prev, w, c, i, 0, j1);
  }

  lemma RowStepDone(target: seq<Byte>, prev: seq<Byte>, w: nat, h: nat, c: nat,
                     i: int, j1: int, j2: int, j: int)
    requires w > 0 && c > 0 && |target| == |prev| == h * (w * c) && 0 <= i < h && j2 <= j <= w
    ensures Progress(RowWritten(target, prev, w, c, i, j1, j2), prev, w, c, i, j, 0)
            == RowWritten(target, prev, w, c, i, j1, j2)
  {
    var t := RowWritten(target, prev, w, c, i, j1, j2);
    ProgressSkip(t, prev, w, c, i, j, w);
    ProgressNextRow(t, prev, w, h, c, i);
    ProgressSkipRows(t, prev, w, c, i + 1, h);
    ProgressDone(t, prev, w, h, c);
  }

  /** The store `buf[k] = v` of one byte, by which every kernel writes its
      output; its contract gives the whole contents of the buffer after it. */
  method SetByte(buf: array<Byte>, k: int, v: Byte)
    requires 0 <= k < buf.Length
    modifies buf
    ensures buf[..] == old(buf[..])[k := v]
  {
    buf[k] := v;
  }

  /** The loop that stores one value `v` into every channel of pixel
      `(i, j)`, where the sweep's target holds `v` in each of them. */
  method SetPixel(buf: array<Byte>, ghost target: seq<Byte>, ghost init: seq<Byte>,
                  w: nat, h: nat, c: nat, i: nat, j: nat, v: Byte)
    requires w > 0 && c > 0 && buf.Length == |target| == |init| == h * (w * c)
    requires i < h && j < w
    requires forall ch :: 0 <= ch < c ==> At(target, Offset(w, c, i, j, ch)) == v
    requires buf[..] == Progress(target, init, w, c, i, j, 0)
    modifies buf
    ensures buf[..] == Progress(target, init, w, c, i, j + 1, 0)
  {
    var outIdx := Offset(w, c, i, j, 0);
    var ch := 0;
    while ch < c
      invariant 0 <= ch <= c
      invariant buf[..] == Progress(target, init, w, c, i, j, ch)
    {
      ProgressStep(target, init, w, h, c, i, j, ch);
      SetByte(buf, outIdx + ch, v);
      ch := ch + 1;
    }
    ProgressNextPixel(target, init, w, h, c, i, j);
  }
}
