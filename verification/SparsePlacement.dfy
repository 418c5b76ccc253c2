/** Where the chunks of an image land, against where the format puts them. */
module SparsePlacement {
  import opened Words
  import opened SparseFormat
  import opened SparseRun
  import opened SparseDisk

  // ---------------------------------------------------------------- counting

  /** Image blocks of the first `k` chunks: where the format puts chunk `k`. */
  function Position(cs: seq<Chunk>, k: nat): nat
    requires k <= |cs|
  {
    if k == 0 then 0 else Position(cs, k - 1) + cs[k - 1].blocks
  }

  /** Image blocks of those of the first `k` chunks that write nothing. */
  function Idle(cs: seq<Chunk>, k: nat): nat
    requires k <= |cs|
  {
    if k == 0 then 0 else Idle(cs, k - 1) + if Writes(cs[k - 1]) then 0 else cs[k - 1].blocks
  }

  /** The data sizes of the chunks that write do not wrap around; holes may be of any size. */
  ghost predicate AllNoWrap(h: Header, cs: seq<Chunk>) {
    h.blkSz > 0 && forall k :: 0 <= k < |cs| ==> Writes(cs[k]) ==> h.blkSz * cs[k].blocks < TWO32
  }

  /** Device blocks per image block. */
  function Scale(j: Job): nat
    requires j.part.blksz > 0
  {
    j.h.blkSz / j.part.blksz
  }

  lemma {:induction false} BlocksScale(j: Job, c: Chunk)
    requires Ready(j) && j.h.blkSz > 0 && (Writes(c) ==> j.h.blkSz * c.blocks < TWO32)
    ensures Blocks(j, c) == if Writes(c) then Scale(j) * c.blocks else 0
    ensures Counted(j.h, c) == c.blocks
  {
    if Writes(c) {
      var ds := j.h.blkSz * c.blocks;
      assert DataSize(j.h, c.blocks) == ds;
      FactorOut(j.part.blksz, j.h.blkSz, c.blocks);
      DivModUnique(ds, j.part.blksz, Scale(j) * c.blocks, 0);
      assert c.blocks * j.h.blkSz == ds;
      DivModUnique(ds, j.h.blkSz, c.blocks, 0);
    }
  }

  /** Every chunk lands below its position in the image by exactly the idle blocks before it. */
  lemma {:induction false} Displacement(j: Job, cs: seq<Chunk>, k: nat)
    requires Ready(j) && AllNoWrap(j.h, cs) && k <= |cs|
    ensures Scale(j) * Position(cs, k) == Extent(j, cs, k) + Scale(j) * Idle(cs, k)
    ensures Tally(j.h, cs, k) == Position(cs, k)
  {
    if k > 0 {
      var c, r := cs[k - 1], Scale(j);
      Displacement(j, cs, k - 1);
      BlocksScale(j, c);
      assert r * (Position(cs, k - 1) + c.blocks) == r * Position(cs, k - 1) + r * c.blocks;
      assert r * (Idle(cs, k - 1) + c.blocks) == r * Idle(cs, k - 1) + r * c.blocks;
    }
  }

  /** Bytes are conserved at every chunk boundary: the bytes counted are those written plus those of idle chunks. */
  lemma {:induction false} Conservation(j: Job, cs: seq<Chunk>, k: nat)
    requires Ready(j) && AllNoWrap(j.h, cs) && k <= |cs|
    ensures Tally(j.h, cs, k) * j.h.blkSz == Extent(j, cs, k) * j.part.blksz + j.h.blkSz * Idle(cs, k)
  {
    Displacement(j, cs, k);
    DivExact(j.h.blkSz, j.part.blksz);
    ScaledSum(Scale(j), j.part.blksz, Tally(j.h, cs, k), Extent(j, cs, k), Idle(cs, k));
  }

  lemma {:induction false} ScaledSum(r: nat, bs: nat, t: nat, e: nat, i: nat)
    requires r * t == e + r * i
    ensures t * (r * bs) == e * bs + r * bs * i
  {
    calc {
      t * (r * bs);
      r * t * bs;
      (e + r * i) * bs;
      e * bs + r * i * bs;
      e * bs + r * bs * i;
    }
  }

  /** No chunk with data comes after a chunk with a hole. */
  ghost predicate HolesLast(cs: seq<Chunk>) {
    forall i, k :: 0 <= i < k < |cs| && !Writes(cs[i]) && Writes(cs[k]) && cs[i].blocks > 0 ==> cs[k].blocks == 0
  }

  lemma {:induction false} IdleZero(cs: seq<Chunk>, k: nat)
    requires k <= |cs|
    ensures Idle(cs, k) == 0 <==> forall i :: 0 <= i < k && !Writes(cs[i]) ==> cs[i].blocks == 0
  {
    if k > 0 { IdleZero(cs, k - 1); }
  }

  /** Chunk `k` is written where the format puts it. */
  predicate InPlace(j: Job, cs: seq<Chunk>, k: nat)
    requires j.part.blksz > 0 && k <= |cs|
  {
    Extent(j, cs, k) == Scale(j) * Position(cs, k)
  }

  /** All data is written where the format puts it exactly when all holes come last. */
  lemma {:induction false} InPlaceExactly(j: Job, cs: seq<Chunk>)
    requires Ready(j) && AllNoWrap(j.h, cs)
    ensures (forall k :: 0 <= k < |cs| && Writes(cs[k]) && cs[k].blocks > 0 ==> InPlace(j, cs, k)) <==> HolesLast(cs)
  {
    forall k | 0 <= k < |cs|
      ensures InPlace(j, cs, k) <==> forall i :: 0 <= i < k && !Writes(cs[i]) ==> cs[i].blocks == 0
    {
      InPlaceAt(j, cs, k);
    }
  }

  lemma {:induction false} InPlaceAt(j: Job, cs: seq<Chunk>, k: nat)
    requires Ready(j) && AllNoWrap(j.h, cs) && k <= |cs|
    ensures InPlace(j, cs, k) <==> forall i :: 0 <= i < k && !Writes(cs[i]) ==> cs[i].blocks == 0
  {
    Displacement(j, cs, k);
    IdleZero(cs, k);
    var r, i := Scale(j), Idle(cs, k);
    DivExact(j.h.blkSz, j.part.blksz);
    assert r > 0;
    assert r * i == 0 <==> i == 0;
  }

  // ---------------------------------------------------------------- where chunks land

  lemma {:induction false} ExpandLen(j: Job, cs: seq<Chunk>, k: nat, p: seq<Request>)
    requires Ready(j) && Sized(j.h, cs) && k <= |cs| && p == Plan(j, cs, k)
    ensures |Expand(j.h, cs, k)| == Extent(j, cs, k) * j.part.blksz
  {
    PlanFlat(j, cs, k);
    PlanLaid(j, cs, k, p);
    LaidFlat(j.part, 0, p, |p|);
  }

  lemma {:induction false} PayloadLen(j: Job, c: Chunk)
    requires Ready(j) && |c.body| == BodyLen(j.h, c.kind, c.blocks)
    ensures |Payload(j.h, c)| == Blocks(j, c) * j.part.blksz
  {
    ExactDivision(j, c.blocks);
    if c.kind == FILL { RepeatLen(c.body, DataSize(j.h, c.blocks) / 4); }
  }

  /** The i-th block of chunk `k` is block `Extent(k) + i` of what the first `n` chunks write. */
  ghost predicate LandsAt(j: Job, cs: seq<Chunk>, k: nat, n: nat, i: nat)
    requires j.part.blksz > 0 && k < n <= |cs|
  {
    var bs, data, all := j.part.blksz, Payload(j.h, cs[k]), Expand(j.h, cs, n);
    && |data| == Blocks(j, cs[k]) * bs && |all| == Extent(j, cs, n) * bs
    && i < Blocks(j, cs[k]) && Extent(j, cs, k) + i < Extent(j, cs, n)
    && Piece(all, bs, Extent(j, cs, k) + i, Extent(j, cs, n)) == Piece(data, bs, i, Blocks(j, cs[k]))
  }

  lemma {:induction false} LastLands(j: Job, cs: seq<Chunk>, k: nat, i: nat)
    requires Ready(j) && Sized(j.h, cs) && k < |cs| && i < Blocks(j, cs[k])
    ensures LandsAt(j, cs, k, k + 1, i)
  {
    PayloadLen(j, cs[k]);
    assert |Expand(j.h, cs, k)| == Extent(j, cs, k) * j.part.blksz by { ExpandLen(j, cs, k, Plan(j, cs, k)); }
    PieceOfSum(Expand(j.h, cs, k), Payload(j.h, cs[k]), j.part.blksz, Extent(j, cs, k) + i,
               Extent(j, cs, k), Blocks(j, cs[k]));
  }

  lemma {:induction false} LandsLater(j: Job, cs: seq<Chunk>, k: nat, n: nat, i: nat)
    requires Ready(j) && Sized(j.h, cs) && k < n < |cs| && LandsAt(j, cs, k, n, i)
    ensures LandsAt(j, cs, k, n + 1, i)
  {
    assert |Expand(j.h, cs, n + 1)| == Extent(j, cs, n + 1) * j.part.blksz by {
      ExpandLen(j, cs, n + 1, Plan(j, cs, n + 1));
    }
    PieceOfLeft(Expand(j.h, cs, n), Payload(j.h, cs[n]), j.part.blksz, Extent(j, cs, k) + i,
                Extent(j, cs, n), Extent(j, cs, n + 1));
  }

  lemma {:induction false} ChunkLands(j: Job, cs: seq<Chunk>, k: nat, n: nat, i: nat)
    requires Ready(j) && Sized(j.h, cs) && k < n <= |cs| && i < Blocks(j, cs[k])
    ensures LandsAt(j, cs, k, n, i)
  {
    if n == k + 1 {
      LastLands(j, cs, k, i);
    } else {
      ChunkLands(j, cs, k, n - 1, i);
      LandsLater(j, cs, k, n - 1, i);
    }
  }

  lemma {:induction false} PlacedAt(disk: nat -> Block, part: Partition, data: seq<byte>, count: nat, i: nat)
    requires |data| == count * part.blksz && i < count
    ensures Placed(disk, part, data, count, part.start + i) == Piece(data, part.blksz, i, count)
  {
  }

  /** The block the format gives to the i-th block of chunk `k`. */
  function FormatBlock(j: Job, cs: seq<Chunk>, k: nat, i: nat): nat
    requires j.part.blksz > 0 && k <= |cs|
  {
    j.part.start + (Scale(j) * Position(cs, k) + i)
  }

  lemma {:induction false} FormatAddress(j: Job, cs: seq<Chunk>, k: nat, i: nat)
    requires Ready(j) && AllNoWrap(j.h, cs) && HolesLast(cs) && k < |cs| && i < Blocks(j, cs[k])
    ensures FormatBlock(j, cs, k, i) == j.part.start + (Extent(j, cs, k) + i)
  {
    DataInPlace(j, cs, k);
  }

  /** Block `b` holds the i-th block of chunk `k` once the image's bytes lie at the start of the partition. */
  ghost predicate HoldsBlockOf(j: Job, cs: seq<Chunk>, disk: nat -> Block, k: nat, i: nat, b: nat)
    requires j.part.blksz > 0 && k < |cs|
  {
    && LandsAt(j, cs, k, |cs|, i)
    && Placed(disk, j.part, Expand(j.h, cs, |cs|), Extent(j, cs, |cs|), b)
       == Piece(Payload(j.h, cs[k]), j.part.blksz, i, Blocks(j, cs[k]))
  }

  /** The i-th block of chunk `k` ends up `Extent(k) + i` blocks into the partition. */
  lemma {:induction false} PlacedChunk(j: Job, cs: seq<Chunk>, disk: nat -> Block, k: nat, i: nat, b: nat)
    requires Ready(j) && Sized(j.h, cs) && k < |cs| && i < Blocks(j, cs[k])
    requires b == j.part.start + (Extent(j, cs, k) + i)
    ensures HoldsBlockOf(j, cs, disk, k, i, b)
  {
    ChunkLands(j, cs, k, |cs|, i);
    PlacedAt(disk, j.part, Expand(j.h, cs, |cs|), Extent(j, cs, |cs|), Extent(j, cs, k) + i);
  }

  /** If all holes come last, every block of every chunk ends up at the place the format gives it. */
  lemma {:induction false} FormatPlacement(j: Job, cs: seq<Chunk>, disk: nat -> Block, k: nat, i: nat)
    requires Ready(j) && Sized(j.h, cs) && AllNoWrap(j.h, cs) && HolesLast(cs)
    requires k < |cs| && i < Blocks(j, cs[k])
    ensures HoldsBlockOf(j, cs, disk, k, i, FormatBlock(j, cs, k, i))
  {
    var b := FormatBlock(j, cs, k, i);
    assert b == j.part.start + (Extent(j, cs, k) + i) by { FormatAddress(j, cs, k, i); }
    PlacedChunk(j, cs, disk, k, i, b);
  }

  lemma {:induction false} DataInPlace(j: Job, cs: seq<Chunk>, k: nat)
    requires Ready(j) && AllNoWrap(j.h, cs) && HolesLast(cs) && k < |cs| && Blocks(j, cs[k]) > 0
    ensures InPlace(j, cs, k)
  {
    BlocksScale(j, cs[k]);
    assert Writes(cs[k]) && cs[k].blocks > 0;
    InPlaceAt(j, cs, k);
  }
}
