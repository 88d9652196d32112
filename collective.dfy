/** `MPI_Scatterv` and `MPI_Gatherv` on the root's image buffer, as the
    program calls them: rank `r` receives `counts[r]` bytes from displacement
    `displs[r]`, and sends them back to the same place.  With the counts and
    displacements of the row partition the ranks' pieces tile the buffer, so
    gathering what was scattered rebuilds it. */
module Collective {
  import opened Layout
  import opened Partition

  function Sum(counts: seq<nat>): nat {
    if |counts| == 0 then 0 else Sum(counts[..|counts| - 1]) + counts[|counts| - 1]
  }

  /** The pieces lie one after another, in rank order, without gap or overlap,
      and cover a buffer of `n` bytes. */
  predicate Tiles(counts: seq<nat>, displs: seq<nat>, n: nat) {
    |displs| == |counts| && Sum(counts) == n
    && forall r :: 0 <= r < |counts| ==> displs[r] == Sum(counts[..r])
  }

  lemma {:induction false} SumPrefix(counts: seq<nat>, r: nat)
    requires r < |counts|
    ensures Sum(counts[..r + 1]) == Sum(counts[..r]) + counts[r]
    ensures Sum(counts[..r]) + counts[r] <= Sum(counts)
    decreases |counts|
  {
    assert counts[..r + 1][..r] == counts[..r];
    if r + 1 < |counts| {
      SumPrefix(counts[..|counts| - 1], r);
      assert counts[..|counts| - 1][..r] == counts[..r];
      assert counts[..|counts| - 1][..r + 1] == counts[..r + 1];
    } else {
      assert counts[..r + 1] == counts;
    }
  }

  /** The piece of the buffer each rank receives: `counts[r]` bytes from
      displacement `displs[r]`. */
  function Scatterv(buf: seq<Byte>, counts: seq<nat>, displs: seq<nat>): (parts: seq<seq<Byte>>)
    requires Tiles(counts, displs, |buf|)
    ensures |parts| == |counts|
  {
    seq(|counts|, r requires 0 <= r < |counts| =>
      SumPrefix(counts, r);
      buf[displs[r] .. displs[r] + counts[r]])
  }

  /** Byte `x` of rank `r`'s piece is the buffer byte that follows all the
      lower ranks' pieces by `x`. */
  lemma ScattervPlacement(buf: seq<Byte>, counts: seq<nat>, displs: seq<nat>, r: nat, x: nat)
    requires Tiles(counts, displs, |buf|) && r < |counts| && x < counts[r]
    ensures |Scatterv(buf, counts, displs)[r]| == counts[r] && Sum(counts[..r]) + x < |buf|
    ensures Scatterv(buf, counts, displs)[r][x] == buf[Sum(counts[..r]) + x]
  {
    SumPrefix(counts, r);
  }

  /** The root's buffer after every rank has sent its piece back: the pieces
      in rank order. */
  function Gatherv(parts: seq<seq<Byte>>): (buf: seq<Byte>)
    ensures |buf| == Sum(Lengths(parts))
  {
    if |parts| == 0 then []
    else
      assert Lengths(parts)[..|parts| - 1] == Lengths(parts[..|parts| - 1]);
      Gatherv(parts[..|parts| - 1]) + parts[|parts| - 1]
  }

  function Lengths(parts: seq<seq<Byte>>): (counts: seq<nat>)
    ensures |counts| == |parts| && forall r :: 0 <= r < |parts| ==> counts[r] == |parts[r]|
  {
    seq(|parts|, r requires 0 <= r < |parts| => |parts[r]|)
  }

  /** Piece `r` lands at the sum of the lengths of the pieces before it,
      which is where the displacements put it. */
  lemma {:induction false} GathervPlacement(parts: seq<seq<Byte>>, r: nat, x: nat)
    requires r < |parts| && x < |parts[r]|
    ensures Sum(Lengths(parts)[..r]) + x < |Gatherv(parts)|
    ensures Gatherv(parts)[Sum(Lengths(parts)[..r]) + x] == parts[r][x]
    decreases |parts|
  {
    var n := |parts| - 1;
    var front := parts[..n];
    assert Lengths(parts)[..n] == Lengths(front);
    SumPrefix(Lengths(parts), r);
    if r < n {
      GathervPlacement(front, r, x);
      assert Lengths(front)[..r] == Lengths(parts)[..r];
    } else {
      assert Lengths(parts)[..r] == Lengths(front);
    }
  }

  /** Gathering the first `m` pieces of a scattered buffer gives back the
      buffer's first `m` pieces' bytes. */
  lemma {:induction false} GatherScatterPrefix(buf: seq<Byte>, counts: seq<nat>, displs: seq<nat>, m: nat)
    requires Tiles(counts, displs, |buf|) && m <= |counts|
    ensures Sum(counts[..m]) <= |buf|
    ensures Gatherv(Scatterv(buf, counts, displs)[..m]) == buf[..Sum(counts[..m])]
  {
    if m > 0 {
      var parts := Scatterv(buf, counts, displs);
      GatherScatterPrefix(buf, counts, displs, m - 1);
      SumPrefix(counts, m - 1);
      var lo, hi := Sum(counts[..m - 1]), Sum(counts[..m]);
      assert parts[..m][..m - 1] == parts[..m - 1];
      assert parts[..m][m - 1] == buf[lo .. hi];
      assert Gatherv(parts[..m]) == buf[..lo] + buf[lo .. hi];
      assert buf[..hi] == buf[..lo] + buf[lo .. hi];
    }
  }

  /** Gathering what was scattered rebuilds the buffer. */
  lemma GatherScatter(buf: seq<Byte>, counts: seq<nat>, displs: seq<nat>)
    requires Tiles(counts, displs, |buf|)
    ensures Gatherv(Scatterv(buf, counts, displs)) == buf
  {
    var parts := Scatterv(buf, counts, displs);
    GatherScatterPrefix(buf, counts, displs, |counts|);
    assert parts[..|counts|] == parts;
    assert counts[..|counts|] == counts;
  }

  /** Scattering what was gathered gives every rank back its own piece. */
  lemma ScatterGather(parts: seq<seq<Byte>>, displs: seq<nat>)
    requires Tiles(Lengths(parts), displs, |Gatherv(parts)|)
    ensures Scatterv(Gatherv(parts), Lengths(parts), displs) == parts
  {
    var back := Scatterv(Gatherv(parts), Lengths(parts), displs);
    forall r | 0 <= r < |parts|
      ensures back[r] == parts[r]
    {
      ScatterGatherPiece(parts, displs, r);
    }
  }

  lemma ScatterGatherPiece(parts: seq<seq<Byte>>, displs: seq<nat>, r: nat)
    requires Tiles(Lengths(parts), displs, |Gatherv(parts)|) && r < |parts|
    ensures Scatterv(Gatherv(parts), Lengths(parts), displs)[r] == parts[r]
  {
    var buf := Gatherv(parts);
    var lo := displs[r];
    SumPrefix(Lengths(parts), r);
    var piece := buf[lo .. lo + |parts[r]|];
    assert Scatterv(buf, Lengths(parts), displs)[r] == piece;
    forall x | 0 <= x < |parts[r]|
      ensures piece[x] == parts[r][x]
    {
      GathervPlacement(parts, r, x);
    }
  }

  /** The program's counts and displacements tile the `w * h * c` bytes of
      the image. */
  lemma PartitionTiles(w: nat, h: nat, c: nat, size: nat)
    requires size > 0
    ensures Tiles(Counts(w, h, c, size), Displs(w, h, c, size), h * (w * c))
  {
    var counts := Counts(w, h, c, size);
    forall r | 0 <= r <= size
      ensures Sum(counts[..r]) == RowStart(h, size, r) * (w * c)
    {
      CountsPrefix(w, h, c, size, r);
    }
    assert counts[..size] == counts;
    RowStartTotal(h, size);
  }

  lemma {:induction false} CountsPrefix(w: nat, h: nat, c: nat, size: nat, r: nat)
    requires size > 0 && r <= size
    ensures Sum(Counts(w, h, c, size)[..r]) == RowStart(h, size, r) * (w * c)
  {
    if r > 0 {
      CountsPrefix(w, h, c, size, r - 1);
      SumPrefix(Counts(w, h, c, size), r - 1);
      RowStartBytes(h, size, r - 1, w * c);
    }
  }
}
