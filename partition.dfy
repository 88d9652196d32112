/** Row partition of the image among the MPI ranks: `height / size` rows
    each, and one more for each of the first `height % size` ranks, in rank
    order; the byte counts and displacements that `MPI_Scatterv` and
    `MPI_Gatherv` are given. */
module Partition {
  import opened Layout

  /** `h / size`, the even share of rows, counted by repeated subtraction;
      `ShareIsQuotient` shows it is the quotient. */
  function Share(h: nat, size: nat): nat
    requires size > 0
    decreases h
  {
    if h < size then 0 else 1 + Share(h - size, size)
  }

  /** `h % size`, the rows left over after the even shares. */
  function Extra(h: nat, size: nat): nat
    requires size > 0
    decreases h
  {
    if h < size then h else Extra(h - size, size)
  }

  lemma {:induction false} ShareIsQuotient(h: nat, size: nat)
    requires size > 0
    ensures Share(h, size) == h / size && Extra(h, size) == h % size
    decreases h
  {
    if h < size {
      DivModUnique(h, size, 0, h);
    } else {
      ShareIsQuotient(h - size, size);
      var q, m := (h - size) / size, (h - size) % size;
      assert h == (q + 1) * size + m;
      DivModUnique(h, size, q + 1, m);
    }
  }

  /** Rows owned by `rank`: the quotient, and one more for a rank below the
      remainder. */
  function LocalHeight(h: nat, size: nat, rank: nat): (rows: nat)
    requires size > 0
    ensures rows == h / size + (if rank < h % size then 1 else 0)
  {
    // `Share` and `Extra` are the C program's `height / size` and
    // `height % size`, counted by subtraction so that unfolding them needs
    // no division.
    ShareIsQuotient(h, size);
    Share(h, size) + (if rank < Extra(h, size) then 1 else 0)
  }

  /** First row owned by `rank`: the rows of all lower ranks come before it,
      which in closed form is `rank` shares plus one row for each lower rank
      below the remainder. */
  function RowStart(h: nat, size: nat, rank: nat): (first: nat)
    requires size > 0
    ensures first == rank * (h / size) + Min(rank, h % size)
  {
    if rank == 0 then 0
    else
      var prev := RowStart(h, size, rank - 1);
      assert rank * (h / size) == (rank - 1) * (h / size) + h / size;
      prev + LocalHeight(h, size, rank - 1)
  }

  function Min(a: int, b: int): int {
    if a <= b then a else b
  }

  /** Each rank gets the even share, the first `h % size` ranks one row more,
      so no two ranks differ by more than one row and lower ranks never have
      fewer rows. */
  lemma Balanced(h: nat, size: nat, r1: nat, r2: nat)
    requires size > 0 && r1 <= r2
    ensures h / size <= LocalHeight(h, size, r1) <= h / size + 1
    ensures LocalHeight(h, size, r1) == h / size + 1 <==> r1 < h % size
    ensures LocalHeight(h, size, r2) <= LocalHeight(h, size, r1) <= LocalHeight(h, size, r2) + 1
  {
    ShareIsQuotient(h, size);
  }

  /** The ranks' rows add up to the whole image. */
  lemma RowStartTotal(h: nat, size: nat)
    requires size > 0
    ensures RowStart(h, size, size) == h
  {
    assert h == size * (h / size) + h % size;
  }

  /** Rank `rank`'s rows end where rank `rank + 1`'s begin, and no later than
      the last row. */
  lemma RowsInside(h: nat, size: nat, rank: nat)
    requires size > 0 && rank < size
    ensures RowStart(h, size, rank) + LocalHeight(h, size, rank) == RowStart(h, size, rank + 1) <= h
  {
    RowStartMonotone(h, size, rank + 1, size);
    RowStartTotal(h, size);
  }

  lemma {:induction false} RowStartMonotone(h: nat, size: nat, r1: nat, r2: nat)
    requires size > 0 && r1 <= r2
    ensures RowStart(h, size, r1) <= RowStart(h, size, r2)
    decreases r2
  {
    if r1 < r2 {
      RowStartMonotone(h, size, r1, r2 - 1);
    }
  }

  /** With no more ranks than rows every rank owns at least one row, and the
      first row of rank `rank` is at least `rank`. */
  lemma NoEmptyRank(h: nat, size: nat, rank: nat)
    requires 0 < size <= h && rank < size
    ensures LocalHeight(h, size, rank) >= 1
    ensures RowStart(h, size, rank) >= rank
  {
  }

  /** With no more ranks than rows, every rank's first row is a row of the
      image. */
  lemma StartsInside(h: nat, size: nat, rank: nat)
    requires 0 < size <= h && rank < size
    ensures RowStart(h, size, rank) < h
  {
    NoEmptyRank(h, size, rank);
    RowsInside(h, size, rank);
  }

  /** With no more ranks than rows, a rank owns the image's first row
      exactly when it is rank 0 ... */
  lemma FirstRank(h: nat, size: nat, rank: nat)
    requires 0 < size <= h && rank < size
    ensures RowStart(h, size, rank) == 0 <==> rank == 0
  {
    NoEmptyRank(h, size, rank);
  }

  /** ... and the rows after its own start past the image exactly when it
      is the last rank. */
  lemma LastRank(h: nat, size: nat, rank: nat)
    requires 0 < size <= h && rank < size
    ensures RowStart(h, size, rank + 1) == h <==> rank == size - 1
  {
    if rank + 1 < size {
      StartsInside(h, size, rank + 1);
    } else {
      RowStartTotal(h, size);
    }
  }

  /** Every row of the image is owned by exactly one rank. */
  lemma {:induction false} Owner(h: nat, size: nat, row: nat) returns (rank: nat)
    requires size > 0 && row < h
    ensures rank < size
    ensures RowStart(h, size, rank) <= row < RowStart(h, size, rank) + LocalHeight(h, size, rank)
    ensures forall r: nat :: r < size && RowStart(h, size, r) <= row < RowStart(h, size, r) + LocalHeight(h, size, r)
              ==> r == rank
  {
    RowStartTotal(h, size);
    rank := 0;
    while RowStart(h, size, rank + 1) <= row
      invariant rank < size && RowStart(h, size, rank) <= row
      decreases size - rank
    {
      if rank + 1 == size {
        assert false;
      }
      rank := rank + 1;
    }
    forall r: nat | r < size && RowStart(h, size, r) <= row < RowStart(h, size, r) + LocalHeight(h, size, r)
      ensures r == rank
    {
      if r < rank {
        RowStartMonotone(h, size, r + 1, rank);
      } else if rank < r {
        RowStartMonotone(h, size, rank + 1, r);
      }
    }
  }

  /** `sendcounts[r]`: the bytes of rank `r`'s rows. */
  function Counts(w: nat, h: nat, c: nat, size: nat): (counts: seq<nat>)
    requires size > 0
    ensures |counts| == size
  {
    seq(size, r requires 0 <= r < size => LocalHeight(h, size, r) * (w * c))
  }

  /** `displs[r]`: where rank `r`'s rows begin in the image buffer. */
  function Displs(w: nat, h: nat, c: nat, size: nat): (displs: seq<nat>)
    requires size > 0
    ensures |displs| == size
  {
    seq(size, r requires 0 <= r < size => RowStart(h, size, r) * (w * c))
  }

  /** The bytes before rank `rank + 1`'s rows are those before rank `rank`'s
      and rank `rank`'s own. */
  lemma RowStartBytes(h: nat, size: nat, rank: nat, rs: nat)
    requires size > 0
    ensures RowStart(h, size, rank + 1) * rs == RowStart(h, size, rank) * rs + LocalHeight(h, size, rank) * rs
  {
    var a, b := RowStart(h, size, rank), LocalHeight(h, size, rank);
    assert RowStart(h, size, rank + 1) == a + b;
    Distribute(a, b, rs);
  }

  lemma Distribute(a: int, b: int, x: int)
    ensures (a + b) * x == a * x + b * x
  {
  }

  /** The displacements start at 0, each follows the previous one by that
      rank's count, and the last piece ends at the image's last byte. */
  lemma DisplsChain(w: nat, h: nat, c: nat, size: nat)
    requires size > 0
    ensures Displs(w, h, c, size)[0] == 0
    ensures forall r :: 0 <= r < size - 1 ==>
      Displs(w, h, c, size)[r + 1] == Displs(w, h, c, size)[r] + Counts(w, h, c, size)[r]
    ensures Displs(w, h, c, size)[size - 1] + Counts(w, h, c, size)[size - 1] == h * (w * c)
  {
    forall r | 0 <= r < size - 1
      ensures Displs(w, h, c, size)[r + 1] == Displs(w, h, c, size)[r] + Counts(w, h, c, size)[r]
    {
      RowStartBytes(h, size, r, w * c);
    }
    RowStartBytes(h, size, size - 1, w * c);
    RowStartTotal(h, size);
  }

  lemma MulAssoc(a: nat, b: nat, c: nat)
    ensures a * b * c == a * (b * c) >= 0
  {
  }

  /** The displacement loop of `main`: `displs[i]` is the running sum of the
      counts before it. */
  method ComputeDisplacements(w: nat, h: nat, c: nat, size: nat) returns (sendcounts: array<nat>, displs: array<nat>)
    requires size > 0
    ensures fresh(sendcounts) && fresh(displs)
    ensures sendcounts[..] == Counts(w, h, c, size)
    ensures displs[..] == Displs(w, h, c, size)
    ensures forall r :: 0 <= r < size ==> sendcounts[r] == LocalHeight(h, size, r) * w * c
  {
    ShareIsQuotient(h, size);
    var rowsPerProcess := h / size;
    var remainder := h % size;
    sendcounts := new nat[size];
    displs := new nat[size];
    var offset := 0;
    for i := 0 to size
      invariant offset == RowStart(h, size, i) * (w * c)
      invariant forall r :: 0 <= r < i ==> sendcounts[r] == Counts(w, h, c, size)[r]
      invariant forall r :: 0 <= r < i ==> displs[r] == Displs(w, h, c, size)[r]
    {
      var rows := rowsPerProcess;
      if i < remainder {
        rows := rows + 1;
      }
      RowStartBytes(h, size, i, w * c);
      MulAssoc(rows, w, c);
      sendcounts[i] := rows * w * c;
      displs[i] := offset;
      offset := offset + sendcounts[i];
    }
    forall r | 0 <= r < size
      ensures sendcounts[r] == LocalHeight(h, size, r) * w * c
    {
      MulAssoc(LocalHeight(h, size, r), w, c);
    }
  }
}
