/** Layout of an image buffer: `width * height * channels` bytes, row-major,
    channel-interleaved.  Byte `ch` of pixel `(i, j)` sits at
    `(i * width + j) * channels + ch`, the index expression every kernel of the
    program computes.  The lemmas here are the index arithmetic the kernels'
    proofs lean on: the index lies inside the buffer, and the coordinates of a
    byte can be recovered from its index. */
module Layout {

  /** `unsigned char` */
  type Byte = b: int | 0 <= b < 256

  /** Index of channel `ch` of pixel `(i, j)`. */
  function Offset(w: int, c: int, i: int, j: int, ch: int): int {
    (i * w + j) * c + ch
  }

  /** Row, column and channel of byte `k`. */
  function RowOf(w: nat, c: nat, k: nat): nat
    requires w > 0 && c > 0
  {
    k / (w * c)
  }

  function ColOf(w: nat, c: nat, k: nat): nat
    requires w > 0 && c > 0
  {
    (k % (w * c)) / c
  }

  function ChanOf(w: nat, c: nat, k: nat): nat
    requires w > 0 && c > 0
  {
    (k % (w * c)) % c
  }

  /** Byte `k` of `buf`, or 0 outside it.  Spec functions read pixels through this
      so that they need no index preconditions; the lemmas about them show that
      every read the kernels perform is inside the buffer. */
  function At(buf: seq<Byte>, k: int): Byte {
    if 0 <= k < |buf| then buf[k] else 0
  }

  /** A buffer of `n` zero bytes (`calloc`). */
  function Zeros(n: nat): (z: seq<Byte>)
    ensures |z| == n && forall k :: 0 <= k < n ==> z[k] == 0
  {
    seq(n, k => 0)
  }

  lemma MulMonotone(a: int, b: int, m: nat)
    requires a <= b
    ensures a * m <= b * m
  {
    assert b * m - a * m == (b - a) * m;
  }

  /** Euclidean division is determined by quotient and remainder. */
  lemma {:induction false} DivModUnique(n: int, d: int, q: int, r: int)
    requires d > 0 && 0 <= r < d && n == q * d + r
    ensures n / d == q && n % d == r
  {
    var q', r' := n / d, n % d;
    assert n == q' * d + r';
    if q' < q {
      MulMonotone(q' + 1, q, d);
    } else if q < q' {
      MulMonotone(q + 1, q', d);
    }
  }

  /** Within a row of `w` pixels, `j * c + ch` stays below `w * c`. */
  lemma RowOffsetBound(w: nat, c: nat, j: nat, ch: nat)
    requires j < w && ch < c
    ensures j * c + ch < w * c
  {
    MulMonotone(j + 1, w, c);
    assert (j + 1) * c == j * c + c;
  }

  /** The index of `(i, j, ch)` is `i` whole rows plus the position in row `i`. */
  lemma OffsetSplit(w: int, c: int, i: int, j: int, ch: int)
    ensures Offset(w, c, i, j, ch) == i * (w * c) + (j * c + ch)
  {
    assert (i * w + j) * c == i * w * c + j * c;
  }

  /** Row `i` of `h` rows of `rs` bytes ends inside the buffer. */
  lemma RowIndexBound(h: nat, rs: nat, i: nat, x: nat)
    requires i < h && x < rs
    ensures 0 <= i * rs + x < h * rs
  {
    MulMonotone(0, i, rs);
    MulMonotone(i + 1, h, rs);
    assert (i + 1) * rs == i * rs + rs;
  }

  /** The index of `(i, j, ch)` is inside a buffer of `h` rows, and the
      coordinates of that index are `(i, j, ch)`. */
  lemma OffsetCoords(h: nat, w: nat, c: nat, i: nat, j: nat, ch: nat)
    requires i < h && j < w && ch < c
    ensures 0 <= Offset(w, c, i, j, ch) < h * (w * c)
    ensures RowOf(w, c, Offset(w, c, i, j, ch)) == i
    ensures ColOf(w, c, Offset(w, c, i, j, ch)) == j
    ensures ChanOf(w, c, Offset(w, c, i, j, ch)) == ch
  {
    OffsetSplit(w, c, i, j, ch);
    RowOffsetBound(w, c, j, ch);
    RowIndexBound(h, w * c, i, j * c + ch);
    DivModUnique(Offset(w, c, i, j, ch), w * c, i, j * c + ch);
    DivModUnique(j * c + ch, c, j, ch);
  }

  /** The channels of the pixel holding byte `k` all lie in the buffer. */
  lemma PixelInside(h: nat, w: nat, c: nat, k: nat)
    requires w > 0 && c > 0 && k < h * (w * c)
    ensures ChanOf(w, c, k) <= k && k - ChanOf(w, c, k) + c <= h * (w * c)
  {
    CoordsOffset(h, w, c, k);
    var i, j := RowOf(w, c, k), ColOf(w, c, k);
    OffsetSplit(w, c, i, j, c - 1);
    RowOffsetBound(w, c, j, c - 1);
    RowIndexBound(h, w * c, i, j * c + (c - 1));
  }

  /** Every byte of a buffer of `h` rows has in-range coordinates, and its
      index is the one computed from them. */
  lemma CoordsOffset(h: nat, w: nat, c: nat, k: nat)
    requires w > 0 && c > 0 && k < h * (w * c)
    ensures RowOf(w, c, k) < h && ColOf(w, c, k) < w && ChanOf(w, c, k) < c
    ensures Offset(w, c, RowOf(w, c, k), ColOf(w, c, k), ChanOf(w, c, k)) == k
  {
    var i, x := k / (w * c), k % (w * c);
    var j, ch := x / c, x % c;
    assert k == i * (w * c) + x;
    assert x == j * c + ch;
    if i >= h {
      MulMonotone(h, i, w * c);
    }
    if j >= w {
      MulMonotone(w, j, c);
    }
    assert Offset(w, c, i, j, ch) == i * (w * c) + (j * c + ch);
  }

  /** Moving down `s` rows moves the index by `s` whole rows. */
  lemma OffsetShift(w: int, c: int, s: int, i: int, j: int, ch: int)
    ensures Offset(w, c, s + i, j, ch) == s * (w * c) + Offset(w, c, i, j, ch)
  {
  }

  /** Coordinates of a byte `s` rows further down. */
  lemma CoordsShift(w: nat, c: nat, s: nat, k: nat)
    requires w > 0 && c > 0
    ensures RowOf(w, c, s * (w * c) + k) == s + RowOf(w, c, k)
    ensures ColOf(w, c, s * (w * c) + k) == ColOf(w, c, k)
    ensures ChanOf(w, c, s * (w * c) + k) == ChanOf(w, c, k)
  {
    var q, r := k / (w * c), k % (w * c);
    assert s * (w * c) + k == (s + q) * (w * c) + r;
    DivModUnique(s * (w * c) + k, w * c, s + q, r);
  }

  /** Byte `k` comes before channel `ch` of pixel `(i, j)` in the row, column,
      channel order in which the kernels' nested loops visit the buffer. */
  predicate Precedes(w: nat, c: nat, k: nat, i: int, j: int, ch: int)
    requires w > 0 && c > 0
  {
    RowOf(w, c, k) < i
    || (RowOf(w, c, k) == i
        && (ColOf(w, c, k) < j || (ColOf(w, c, k) == j && ChanOf(w, c, k) < ch)))
  }

  /** `CoordsOffset` for every byte of a buffer of `h` rows at once. */
  lemma AllCoords(h: nat, w: nat, c: nat, n: nat)
    requires w > 0 && c > 0 && n == h * (w * c)
    ensures forall k: nat :: k < n ==>
      RowOf(w, c, k) < h && ColOf(w, c, k) < w && ChanOf(w, c, k) < c
      && Offset(w, c, RowOf(w, c, k), ColOf(w, c, k), ChanOf(w, c, k)) == k
  {
    forall k: nat | k < n
      ensures RowOf(w, c, k) < h && ColOf(w, c, k) < w && ChanOf(w, c, k) < c
      ensures Offset(w, c, RowOf(w, c, k), ColOf(w, c, k), ChanOf(w, c, k)) == k
    {
      CoordsOffset(h, w, c, k);
    }
  }

  /** The neighbour `di` rows and `dj` columns away lies `di` rows and `dj`
      pixels from the byte itself. */
  lemma NeighbourOffset(w: int, c: int, i: int, j: int, ch: int, di: int, dj: int)
    ensures Offset(w, c, i + di, j + dj, ch) == Offset(w, c, i, j, ch) + di * (w * c) + dj * c
  {
  }
}
