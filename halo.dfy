/** The halo exchange before the blur and the edge filters.  Every rank but
    the first sends its first row up (tag 0) and receives the row above its
    block into `halo_top` (tag 1); every rank but the last sends its last row
    down (tag 1) and receives the row below its block into `halo_bottom`
    (tag 0).  The buffers start zeroed (`calloc`), so a rank without a
    neighbour on one side sees a row of zeros there.  The exchange is
    modelled as the sets of non-blocking sends and receives the ranks post;
    the lemmas show that every receive is matched by exactly one send, every
    send by exactly one receive, and what each halo then holds. */
module Halo {
  import opened Layout

  /** Tag of a first row travelling to the rank above. */
  const TagUp: nat := 0
  /** Tag of a last row travelling to the rank below. */
  const TagDown: nat := 1

  /** Row `i` of a block of rows `rs` bytes long. */
  function Row(block: seq<Byte>, rs: nat, i: int): (row: seq<Byte>)
    ensures |row| == rs
  {
    seq<Byte>(rs, x requires 0 <= x < rs => At(block, i * rs + x))
  }

  /** A row that lies inside the block is the slice of its bytes. */
  lemma RowSlice(block: seq<Byte>, rs: nat, i: int)
    requires 0 <= i * rs && i * rs + rs <= |block|
    ensures Row(block, rs, i) == block[i * rs .. i * rs + rs]
  {
    var row, slice := Row(block, rs, i), block[i * rs .. i * rs + rs];
    forall x | 0 <= x < rs
      ensures row[x] == slice[x]
    {
      assert row[x] == At(block, i * rs + x);
    }
  }

  datatype Message = Message(source: nat, dest: nat, tag: nat, payload: seq<Byte>)

  datatype Side = Top | Bottom

  /** A posted `MPI_Irecv`: the receiving rank, the source and tag it waits
      for, and the halo buffer it fills. */
  datatype Receive = Receive(rank: nat, source: nat, tag: nat, into: Side)

  /** The sends rank `rank` posts: one row of `rs` bytes to each neighbour,
      tagged with the direction it travels. */
  function SendsOf(blocks: seq<seq<Byte>>, heights: seq<nat>, rs: nat, rank: nat): (sends: seq<Message>)
    requires |heights| == |blocks| && rank < |blocks|
    ensures forall m :: m in sends ==>
              m.source == rank && |m.payload| == rs
              && ((m.tag == TagUp && m.dest + 1 == rank) || (m.tag == TagDown && m.dest == rank + 1 < |blocks|))
    ensures |sends| <= 2
    ensures rank > 0 ==> Message(rank, rank - 1, TagUp, Row(blocks[rank], rs, 0)) in sends
    ensures rank + 1 < |blocks| ==>
              Message(rank, rank + 1, TagDown, Row(blocks[rank], rs, heights[rank] as int - 1)) in sends
  {
    (if rank > 0 then [Message(rank, rank - 1, TagUp, Row(blocks[rank], rs, 0))] else [])
    + (if rank < |blocks| - 1
       then [Message(rank, rank + 1, TagDown, Row(blocks[rank], rs, heights[rank] as int - 1))] else [])
  }

  /** The receives rank `rank` posts: the top halo from the rank above, with
      the tag of a row travelling down, and the bottom halo from the rank
      below, with the tag of a row travelling up. */
  function ReceivesOf(size: nat, rank: nat): (recvs: seq<Receive>)
    ensures forall q :: q in recvs ==>
              q.rank == rank
              && ((q.into == Top && q.tag == TagDown && q.source + 1 == rank)
                  || (q.into == Bottom && q.tag == TagUp && q.source == rank + 1 < size))
    ensures |recvs| <= 2
    ensures rank > 0 ==> Receive(rank, rank - 1, TagDown, Top) in recvs
    ensures rank + 1 < size ==> Receive(rank, rank + 1, TagUp, Bottom) in recvs
  {
    (if rank > 0 then [Receive(rank, rank - 1, TagDown, Top)] else [])
    + (if rank + 1 < size then [Receive(rank, rank + 1, TagUp, Bottom)] else [])
  }

  function AllSends(blocks: seq<seq<Byte>>, heights: seq<nat>, rs: nat): set<Message>
    requires |heights| == |blocks|
  {
    set r, m | 0 <= r < |blocks| && m in SendsOf(blocks, heights, rs, r) :: m
  }

  function AllReceives(size: nat): set<Receive> {
    set r, q | 0 <= r < size && q in ReceivesOf(size, r) :: q
  }

  /** MPI matches a message with a receive by source, destination and tag. */
  predicate Matches(m: Message, q: Receive) {
    m.source == q.source && m.dest == q.rank && m.tag == q.tag
  }

  /** What `halo_top` holds once the exchange is complete: zeros on rank 0
      (`calloc`); elsewhere the last row of the rank above, which is the last
      `rs` bytes of its buffer when that buffer holds a row. */
  function HaloTop(blocks: seq<seq<Byte>>, heights: seq<nat>, rs: nat, rank: nat): (halo: seq<Byte>)
    requires |heights| == |blocks| && rank < |blocks|
    ensures |halo| == rs
    ensures rank == 0 ==> forall x :: 0 <= x < rs ==> halo[x] == 0
    ensures rank > 0 && |blocks[rank - 1]| == heights[rank - 1] * rs && |blocks[rank - 1]| >= rs ==>
              halo == blocks[rank - 1][|blocks[rank - 1]| - rs ..]
  {
    if rank > 0 then
      var above, last := blocks[rank - 1], heights[rank - 1] as int - 1;
      assert last * rs == heights[rank - 1] * rs - rs;
      if |above| == heights[rank - 1] * rs && |above| >= rs then (RowSlice(above, rs, last); Row(above, rs, last))
      else Row(above, rs, last)
    else Zeros(rs)
  }

  /** What `halo_bottom` holds once the exchange is complete: zeros on the
      last rank (`calloc`); elsewhere the first row of the rank below, which
      is the first `rs` bytes of its buffer when that buffer holds a row. */
  function HaloBottom(blocks: seq<seq<Byte>>, heights: seq<nat>, rs: nat, rank: nat): (halo: seq<Byte>)
    requires |heights| == |blocks| && rank < |blocks|
    ensures |halo| == rs
    ensures rank + 1 == |blocks| ==> forall x :: 0 <= x < rs ==> halo[x] == 0
    ensures rank + 1 < |blocks| && |blocks[rank + 1]| >= rs ==> halo == blocks[rank + 1][..rs]
  {
    if rank + 1 < |blocks| then
      if |blocks[rank + 1]| >= rs then (RowSlice(blocks[rank + 1], rs, 0); Row(blocks[rank + 1], rs, 0))
      else Row(blocks[rank + 1], rs, 0)
    else Zeros(rs)
  }

  /** Every posted receive is matched by exactly one posted send, and the
      payload of that send is what the halo buffer ends up holding. */
  lemma ReceiveMatchedOnce(blocks: seq<seq<Byte>>, heights: seq<nat>, rs: nat, q: Receive)
    requires |heights| == |blocks| && q in AllReceives(|blocks|)
    ensures exists m :: m in AllSends(blocks, heights, rs) && Matches(m, q)
    ensures forall m1, m2 ::
              m1 in AllSends(blocks, heights, rs) && m2 in AllSends(blocks, heights, rs)
              && Matches(m1, q) && Matches(m2, q)
              ==> m1 == m2
    ensures forall m :: m in AllSends(blocks, heights, rs) && Matches(m, q) ==>
              m.payload == if q.into == Top then HaloTop(blocks, heights, rs, q.rank)
                           else HaloBottom(blocks, heights, rs, q.rank)
  {
    var size := |blocks|;
    var d :| 0 <= d < size && q in ReceivesOf(size, d);
    var s := q.source;
    assert 0 <= s < size;
    var m := if q.into == Top then Message(s, d, TagDown, Row(blocks[s], rs, heights[s] as int - 1))
             else Message(s, d, TagUp, Row(blocks[s], rs, 0));
    assert m in SendsOf(blocks, heights, rs, s);
    assert m in AllSends(blocks, heights, rs);
    forall m' | m' in AllSends(blocks, heights, rs) && Matches(m', q)
      ensures m' == m
    {
      SentBy(blocks, heights, rs, m');
    }
  }

  /** A posted send goes to a neighbour of its sender, and carries the
      sender's first row upwards or its last row downwards. */
  lemma SentBy(blocks: seq<seq<Byte>>, heights: seq<nat>, rs: nat, m: Message)
    requires |heights| == |blocks| && m in AllSends(blocks, heights, rs)
    ensures m.source < |blocks|
    ensures m.tag == TagUp ==> m == Message(m.source, m.source - 1, TagUp, Row(blocks[m.source], rs, 0))
    ensures m.tag == TagDown ==>
              m == Message(m.source, m.source + 1, TagDown, Row(blocks[m.source], rs, heights[m.source] as int - 1))
  {
    var r :| 0 <= r < |blocks| && m in SendsOf(blocks, heights, rs, r);
  }

  /** Every posted send is matched by exactly one posted receive, so the
      `MPI_Waitall` of every rank completes. */
  lemma SendMatchedOnce(blocks: seq<seq<Byte>>, heights: seq<nat>, rs: nat, m: Message)
    requires |heights| == |blocks| && m in AllSends(blocks, heights, rs)
    ensures exists q :: q in AllReceives(|blocks|) && Matches(m, q)
    ensures forall q1, q2 ::
              q1 in AllReceives(|blocks|) && q2 in AllReceives(|blocks|)
              && Matches(m, q1) && Matches(m, q2)
              ==> q1 == q2
  {
    var size := |blocks|;
    var s :| 0 <= s < size && m in SendsOf(blocks, heights, rs, s);
    var d := m.dest;
    var q := if m.tag == TagDown then Receive(d, s, TagDown, Top) else Receive(d, s, TagUp, Bottom);
    assert q in ReceivesOf(size, d);
    assert q in AllReceives(size);
    forall q1, q2 | q1 in AllReceives(size) && q2 in AllReceives(size) && Matches(m, q1) && Matches(m, q2)
      ensures q1 == q2
    {
      var r1 :| 0 <= r1 < size && q1 in ReceivesOf(size, r1);
      var r2 :| 0 <= r2 < size && q2 in ReceivesOf(size, r2);
    }
  }
}
