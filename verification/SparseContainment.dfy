/** Which partitions every run over every image stays inside. */
module SparseContainment {
  import opened Words
  import opened SparseFormat
  import opened SparseRun
  import opened SparseDisk

  predicate Inside(part: Partition, r: Request) {
    part.start <= r.blk && r.blk + r.cnt <= part.start + part.size
  }

  ghost predicate Contained(part: Partition, reqs: seq<Request>) {
    forall i :: 0 <= i < |reqs| ==> Inside(part, reqs[i])
  }

  /** The most blocks one chunk can ask for. */
  function MaxBlocks(part: Partition): nat
    requires part.blksz > 0
  {
    (TWO32 - 1) / part.blksz
  }

  /** The furthest into the partition at which a chunk of an image can start: a header counts fewer than 2^32 chunks. */
  function Reach(part: Partition): nat
    requires part.blksz > 0
  {
    var cap := (TWO32 - 2) * MaxBlocks(part);
    if part.size < cap then part.size else cap
  }

  /** The bounds check of no chunk can wrap around in `lbaint_t`. */
  predicate Roomy(part: Partition)
    requires part.blksz > 0
  {
    part.start + Reach(part) + MaxBlocks(part) < Pow2(part.bits)
  }

  lemma {:induction false} BlocksBound(j: Job, c: Chunk)
    requires j.part.blksz > 0
    ensures Blocks(j, c) <= MaxBlocks(j.part)
  {
    DivMonotone(DataSize(j.h, c.blocks), TWO32 - 1, j.part.blksz);
  }

  /** Where the check cannot wrap, a chunk that passes it fits. */
  lemma {:induction false} PassedFits(j: Job, cs: seq<Chunk>, k: nat, off: nat)
    requires Sane(j.part) && OnDisk(j.part) && Roomy(j.part) && k < |cs| && off <= Reach(j.part)
    requires Refusal(j, k, off, cs[k]).None?
    ensures off + Blocks(j, cs[k]) <= j.part.size
  {
    BlocksBound(j, cs[k]);
  }

  lemma {:induction false} BelowReach(part: Partition, k: nat, e: nat)
    requires part.blksz > 0 && k <= TWO32 - 2 && e <= part.size && e <= k * MaxBlocks(part)
    ensures e <= Reach(part)
  {
    MulMonotone(k, TWO32 - 2, MaxBlocks(part));
  }

  /** The first `k` chunks end inside the partition, and no further on than `k` of the greatest size would. */
  ghost predicate FitsUpTo(j: Job, cs: seq<Chunk>, k: nat)
    requires j.part.blksz > 0 && k <= |cs|
  {
    Extent(j, cs, k) <= j.part.size && Extent(j, cs, k) <= k * MaxBlocks(j.part)
  }

  lemma {:induction false} StepFits(j: Job, cs: seq<Chunk>, k: nat, n: nat)
    requires Sane(j.part) && OnDisk(j.part) && Roomy(j.part) && n == k + 1 <= |cs| < TWO32
    requires Refusal(j, k, Extent(j, cs, k), cs[k]).None? && FitsUpTo(j, cs, k)
    ensures FitsUpTo(j, cs, n)
  {
    BelowReach(j.part, k, Extent(j, cs, k));
    PassedFits(j, cs, k, Extent(j, cs, k));
    BlocksBound(j, cs[k]);
    Distribute(k, 1, MaxBlocks(j.part));
  }

  lemma {:induction false} ExtentFits(j: Job, cs: seq<Chunk>, k: nat)
    requires Sane(j.part) && OnDisk(j.part) && Roomy(j.part) && k <= |cs| < TWO32 && PassesAll(j, cs, k)
    ensures FitsUpTo(j, cs, k)
  {
    if k > 0 {
      ExtentFits(j, cs, k - 1);
      StepFits(j, cs, k - 1, k);
    }
  }

  lemma {:induction false} LaidInside(part: Partition, reqs: seq<Request>)
    requires Laid(part, 0, reqs, |reqs|) && Count(reqs, |reqs|) <= part.size
    requires part.start + part.size < Pow2(part.bits)
    ensures Contained(part, reqs)
  {
    forall i | 0 <= i < |reqs| ensures Inside(part, reqs[i]) {
      assert LaidAt(part, 0, reqs, i);
      CountMonotone(reqs, i + 1, |reqs|);
    }
  }

  lemma {:induction false} PrefixFits(j: Job, cs: seq<Chunk>, k: nat, reqs: seq<Request>)
    requires Ready(j) && Sized(j.h, cs) && k <= |cs| && reqs <= Plan(j, cs, k) && Extent(j, cs, k) <= j.part.size
    ensures Count(reqs, |reqs|) <= j.part.size
  {
    var p := Plan(j, cs, k);
    PlanFlat(j, cs, k);
    CountSame(reqs, p, |reqs|);
    CountMonotone(p, |reqs|, |p|);
  }

  lemma {:induction false} WritingFits(j: Job, cs: seq<Chunk>, q: nat, s: State)
    requires Ready(j) && Sized(j.h, cs) && OnDisk(j.part) && Roomy(j.part)
    requires q < |cs| && Extent(j, cs, q) <= Reach(j.part) && HaltsAt(j, cs, q, s, WriteFailed)
    ensures Count(s.requests, |s.requests|) <= j.part.size
  {
    PassedFits(j, cs, q, Extent(j, cs, q));
    PrefixFits(j, cs, q + 1, s.requests);
  }

  /** The requests of any run on a roomy partition ask for no more blocks than it has. */
  lemma {:induction false} RequestedFits(j: Job, cs: seq<Chunk>)
    requires Ready(j) && Sized(j.h, cs) && OnDisk(j.part) && Roomy(j.part) && |cs| < TWO32
    ensures var reqs := Run(j, cs, 0, START).s.requests; Count(reqs, |reqs|) <= j.part.size
  {
    RunShape(j, cs);
    var o := Run(j, cs, 0, START);
    var q := Done(cs, o.end);
    ExtentFits(j, cs, q);
    if o.end.Halted? && o.end.failure == WriteFailed {
      BelowReach(j.part, q, Extent(j, cs, q));
      WritingFits(j, cs, q, o.s);
    } else {
      PrefixFits(j, cs, q, o.s.requests);
    }
  }

  /** On a roomy partition, no image and no fault makes the writer ask for a block outside; every
      request starts where the one before it ended. */
  lemma {:induction false} Containment(j: Job, cs: seq<Chunk>)
    requires Ready(j) && Sized(j.h, cs) && OnDisk(j.part) && Roomy(j.part) && |cs| < TWO32
    ensures var reqs := Run(j, cs, 0, START).s.requests;
            Contained(j.part, reqs) && Laid(j.part, 0, reqs, |reqs|)
  {
    StopsAtPrefix(j, cs);
    PlanLaid(j, cs, |cs|, Plan(j, cs, |cs|));
    var reqs := Run(j, cs, 0, START).s.requests;
    LaidPrefix(j.part, 0, reqs, Plan(j, cs, |cs|));
    RequestedFits(j, cs);
    LaidInside(j.part, reqs);
  }

  lemma {:induction false} FitsIsAccepted(part: Partition, off: nat, n: nat)
    requires OnDisk(part) && off + n <= part.size
    ensures !Exceeds(part, off, n)
  {
  }

  // ---------------------------------------------------------------- fill images without faults

  /** A fill chunk of `n` image blocks. */
  function FillChunk(n: u32, word: seq<byte>): Chunk {
    Chunk(FILL, n, CHUNK_HEADER_LEN + 4, word)
  }

  /** Flashing an image with the device's block size, where nothing outside the writer fails. */
  function FillJob(part: Partition, totalBlks: u32, chunks: u32): Job
    requires part.blksz < TWO32
  {
    var h := Header(0xED26_FF3A, 1, 0, SPARSE_HEADER_LEN, CHUNK_HEADER_LEN, part.blksz, totalBlks, chunks, 0);
    Job(h, part, Faults(_ => true, _ => 1))
  }

  lemma {:induction false} MaxBlocksBound(part: Partition, n: nat)
    requires 0 < part.blksz <= 0x8000_0000 && n <= MaxBlocks(part)
    ensures 0 < MaxBlocks(part) && n < TWO32 && n * part.blksz < TWO32
  {
    DivTimes(TWO32 - 1, part.blksz);
    MulMonotone(n, MaxBlocks(part), part.blksz);
    DivMonotone(part.blksz, TWO32 - 1, part.blksz);
    DivModUnique(part.blksz, part.blksz, 1, 0);
  }

  lemma {:induction false} FillChunkBlocks(j: Job, n: u32, word: seq<byte>)
    requires 0 < j.part.blksz && j.h.blkSz == j.part.blksz && n * j.part.blksz < TWO32
    ensures Blocks(j, FillChunk(n, word)) == n
  {
    var ds := n * j.part.blksz;
    assert j.part.blksz * n == ds && ds % TWO32 == ds;
    DivModUnique(ds, j.part.blksz, n, 0);
  }

  /** Without faults, a fill chunk that is let through passes, and adds one request a block. */
  lemma {:induction false} FillChunkPasses(j: Job, cs: seq<Chunk>, k: nat, n: u32, word: seq<byte>)
    requires 0 < j.part.blksz < TWO32 && j == FillJob(j.part, j.h.totalBlks, j.h.totalChunks)
    requires n * j.part.blksz < TWO32
    requires k < |cs| && cs[k] == FillChunk(n, word) && PassesAll(j, cs, k) && !Exceeds(j.part, Extent(j, cs, k), n)
    ensures PassesAll(j, cs, k + 1) && Extent(j, cs, k + 1) == Extent(j, cs, k) + n
    ensures var p, block := Plan(j, cs, k), Repeat(word, j.part.blksz / 4);
            Plan(j, cs, k + 1) == p + FillRequests(j.part, Extent(j, cs, k), n, block)
  {
    FillChunkBlocks(j, n, word);
    PassesNext(j, cs, k);
  }

  // ---------------------------------------------------------------- partitions that are not roomy

  /** Chunk `k` of the overrunning image: as much as a chunk can ask for, and once what is left of the reach. */
  function OverrunBlocks(part: Partition, k: nat): (n: nat)
    requires 0 < part.blksz <= 0x8000_0000
    ensures n <= MaxBlocks(part)
  {
    MaxBlocksBound(part, 0);
    var most := MaxBlocks(part);
    if k == Reach(part) / most && Reach(part) % most > 0 then Reach(part) % most else most
  }

  /** The number of chunks that fill the reach. */
  function FillingChunks(part: Partition): nat
    requires 0 < part.blksz <= 0x8000_0000
  {
    MaxBlocksBound(part, 0);
    Reach(part) / MaxBlocks(part) + if Reach(part) % MaxBlocks(part) > 0 then 1 else 0
  }

  lemma {:induction false} CountableChunks(part: Partition)
    requires 0 < part.blksz <= 0x8000_0000
    ensures FillingChunks(part) <= TWO32 - 2
  {
    MaxBlocksBound(part, 0);
    var most, reach := MaxBlocks(part), Reach(part);
    DivMonotone(reach, (TWO32 - 2) * most, most);
    DivModUnique((TWO32 - 2) * most, most, TWO32 - 2, 0);
    if reach / most == TWO32 - 2 {
      DivTimes(reach, most);
      DivModUnique(reach, most, TWO32 - 2, 0);
    }
  }

  /** Fill chunks that fill the reach of the partition, and one more of the greatest size. */
  function Overrun(part: Partition): (cs: seq<Chunk>)
    requires 0 < part.blksz <= 0x8000_0000
    ensures |cs| == FillingChunks(part) + 1 < TWO32
  {
    CountableChunks(part);
    seq(FillingChunks(part) + 1, k requires 0 <= k => OverrunChunk(part, k))
  }

  function OverrunChunk(part: Partition, k: nat): Chunk
    requires 0 < part.blksz <= 0x8000_0000
  {
    MaxBlocksBound(part, OverrunBlocks(part, k));
    FillChunk(OverrunBlocks(part, k), [0, 0, 0, 0])
  }

  function OverrunJob(part: Partition): Job
    requires 0 < part.blksz <= 0x8000_0000
  {
    CountableChunks(part);
    FillJob(part, 0, FillingChunks(part) + 1)
  }

  lemma {:induction false} OverrunFills(part: Partition, k: nat)
    requires Sane(part) && OnDisk(part) && 0 < MaxBlocks(part) && k <= Reach(part) / MaxBlocks(part)
    ensures var j, cs := OverrunJob(part), Overrun(part);
            PassesAll(j, cs, k) && Extent(j, cs, k) == k * MaxBlocks(part)
  {
    if k > 0 {
      OverrunFills(part, k - 1);
      OverrunFillsNext(part, k - 1, MaxBlocks(part));
    }
  }

  lemma {:induction false} OverrunFillsNext(part: Partition, k: nat, most: nat)
    requires Sane(part) && OnDisk(part) && 0 < most == MaxBlocks(part) && k < Reach(part) / most
    requires PassesAll(OverrunJob(part), Overrun(part), k) && Extent(OverrunJob(part), Overrun(part), k) == k * most
    ensures PassesAll(OverrunJob(part), Overrun(part), k + 1)
    ensures Extent(OverrunJob(part), Overrun(part), k + 1) == (k + 1) * most
  {
    Distribute(k, 1, most);
    MulMonotone(k + 1, Reach(part) / most, most);
    DivTimes(Reach(part), most);
    FitsIsAccepted(part, k * most, most);
    OverrunStep(part, k, most);
  }

  /** A chunk of the overrunning image that the bounds check lets through. */
  lemma {:induction false} OverrunStep(part: Partition, k: nat, n: nat)
    requires 0 < part.blksz <= 0x8000_0000 && k <= FillingChunks(part) && n == OverrunBlocks(part, k)
    requires var j, cs := OverrunJob(part), Overrun(part);
             PassesAll(j, cs, k) && !Exceeds(part, Extent(j, cs, k), n)
    ensures var j, cs := OverrunJob(part), Overrun(part);
            && PassesAll(j, cs, k + 1) && Extent(j, cs, k + 1) == Extent(j, cs, k) + n
            && Plan(j, cs, k + 1) == Plan(j, cs, k) +
                 FillRequests(part, Extent(j, cs, k), n, Repeat([0, 0, 0, 0], part.blksz / 4))
  {
    MaxBlocksBound(part, n);
    var j, cs := OverrunJob(part), Overrun(part);
    FillChunkPasses(j, cs, k, n, [0, 0, 0, 0]);
  }

  /** All but the last chunk of the overrunning image pass, and fill the reach. */
  lemma {:induction false} OverrunFilled(part: Partition)
    requires Sane(part) && OnDisk(part)
    ensures PassesAll(OverrunJob(part), Overrun(part), FillingChunks(part))
    ensures Extent(OverrunJob(part), Overrun(part), FillingChunks(part)) == Reach(part)
  {
    MaxBlocksBound(part, 0);
    var q, r := Reach(part) / MaxBlocks(part), Reach(part) % MaxBlocks(part);
    OverrunFills(part, q);
    if r > 0 {
      OverrunRest(part, q, r);
    } else {
      DivModIdentity(Reach(part), MaxBlocks(part), q, r);
    }
  }

  /** The chunk that fills what is left of the reach. */
  lemma {:induction false} OverrunRest(part: Partition, q: nat, r: nat)
    requires Sane(part) && OnDisk(part) && 0 < r && 0 < MaxBlocks(part)
    requires q == Reach(part) / MaxBlocks(part) && r == Reach(part) % MaxBlocks(part)
    requires PassesAll(OverrunJob(part), Overrun(part), q)
    requires Extent(OverrunJob(part), Overrun(part), q) == q * MaxBlocks(part)
    ensures PassesAll(OverrunJob(part), Overrun(part), q + 1)
    ensures Extent(OverrunJob(part), Overrun(part), q + 1) == Reach(part)
  {
    DivModIdentity(Reach(part), MaxBlocks(part), q, r);
    FitsIsAccepted(part, q * MaxBlocks(part), r);
    OverrunStep(part, q, r);
  }

  /** At the end of the reach of a partition that is not roomy, the bounds check wraps around and lets the greatest
      chunk through. */
  lemma {:induction false} WrapBack(part: Partition)
    requires Sane(part) && OnDisk(part) && !Roomy(part)
    ensures !Exceeds(part, Reach(part), MaxBlocks(part))
  {
    MaxBlocksBound(part, MaxBlocks(part));
    Pow2Of32();
    Pow2Monotone(32, part.bits);
    WrapOnce(part, part.start + Reach(part), MaxBlocks(part), Pow2(part.bits));
  }

  lemma {:induction false} WrapOnce(part: Partition, x: nat, n: nat, span: nat)
    requires x < span <= x + n && n < span
    ensures Wrap(Wrap(x, span) + n, span) == x + n - span
  {
    assert Wrap(x, span) == x;
    assert Wrap(x + n, span) == Wrap(x + n - span, span);
  }

  /** The request that asks for the block right behind the partition. */
  lemma {:induction false} OverrunRequest(part: Partition)
    requires Sane(part) && OnDisk(part) && !Roomy(part)
    ensures var j, cs := OverrunJob(part), Overrun(part);
            PassesAll(j, cs, |cs|) && !Contained(part, Plan(j, cs, |cs|))
  {
    var j, cs, n := OverrunJob(part), Overrun(part), FillingChunks(part);
    OverrunFilled(part);
    WrapBack(part);
    OverrunLast(part);
    OverrunStep(part, n, MaxBlocks(part));
    EndRequest(part, Plan(j, cs, n), Reach(part), MaxBlocks(part), Repeat([0, 0, 0, 0], part.blksz / 4));
  }

  lemma {:induction false} EndRequest(part: Partition, p: seq<Request>, off: nat, n: nat, block: seq<byte>)
    requires OnDisk(part) && off <= part.size < off + n
    ensures !Contained(part, p + FillRequests(part, off, n, block))
  {
    var reqs, i := p + FillRequests(part, off, n, block), |p| + (part.size - off);
    assert reqs[i] == Request(Lba(part, part.size), 1, block);
    assert !Inside(part, reqs[i]);
  }

  lemma {:induction false} OverrunLast(part: Partition)
    requires 0 < part.blksz <= 0x8000_0000
    ensures OverrunBlocks(part, FillingChunks(part)) == MaxBlocks(part)
  {
  }

  lemma {:induction false} OverrunPrintable(part: Partition)
    requires Sane(part)
    ensures Ready(OverrunJob(part)) && Sized(OverrunJob(part).h, Overrun(part))
    ensures Printable(OverrunJob(part).h, Overrun(part))
    ensures |Encode(OverrunJob(part).h, Overrun(part))| == SPARSE_HEADER_LEN + 16 * (FillingChunks(part) + 1)
  {
    DivModUnique(part.blksz, part.blksz, 1, 0);
    FillImageLen(OverrunJob(part).h, Overrun(part), |Overrun(part)|);
  }

  lemma {:induction false} FillImageLen(h: Header, cs: seq<Chunk>, k: nat)
    requires k <= |cs| && h.chunkHdrSz == CHUNK_HEADER_LEN && forall i :: 0 <= i < |cs| ==> |cs[i].body| == 4
    ensures |EncodeChunks(h, cs, k)| == 16 * k
  {
    if k > 0 { FillImageLen(h, cs, k - 1); }
  }

  /** The writer keeps the image at `m` inside the partition, under faults `f`. */
  ghost predicate KeptInside(part: Partition, m: Memory, f: Faults)
    requires part.blksz > 0
  {
    var h := HeaderAt(m);
    h.blkSz % part.blksz == 0 ==> Contained(part, Run(Job(h, part, f), Decode(m, h), 0, START).s.requests)
  }

  /** A partition that is not roomy is overrun by an image of 44 bytes and 16 more for every chunk it takes to fill
      the partition, even if nothing fails. */
  lemma {:induction false} OverrunEscapes(part: Partition)
    requires Sane(part) && OnDisk(part) && !Roomy(part)
    ensures var image := Encode(OverrunJob(part).h, Overrun(part));
            && |image| == SPARSE_HEADER_LEN + 16 * (FillingChunks(part) + 1)
            && !KeptInside(part, MemoryOf(image), OverrunJob(part).faults)
  {
    var j, cs := OverrunJob(part), Overrun(part);
    OverrunPrintable(part);
    OverrunRequest(part);
    FinishesExactly(j, cs);
    RunShape(j, cs);
    RoundTrip(MemoryOf(Encode(j.h, cs)), j.h, cs);
  }

  /** The writer keeps every image inside a partition, whatever fails, exactly when the partition is roomy. */
  lemma {:induction false} ContainmentExactly(part: Partition)
    requires Sane(part) && OnDisk(part)
    ensures Roomy(part) <==> forall m: Memory, f: Faults :: KeptInside(part, m, f)
  {
    if Roomy(part) {
      forall m: Memory, f: Faults ensures KeptInside(part, m, f) {
        RoomyKeeps(part, m, f);
      }
    } else {
      OverrunEscapes(part);
    }
  }

  lemma {:induction false} RoomyKeeps(part: Partition, m: Memory, f: Faults)
    requires Sane(part) && OnDisk(part) && Roomy(part)
    ensures KeptInside(part, m, f)
  {
    var h := HeaderAt(m);
    if h.blkSz % part.blksz == 0 {
      DecodeSized(m, h);
      Containment(Job(h, part, f), Decode(m, h));
    }
  }

  /** Seven blocks at the end of a 32-bit block address space are overrun by an image of 60 bytes. */
  lemma {:induction false} SmallPartitionOverrun()
    ensures var part := Partition(0xFFFF_FFF8, 7, 512, 32);
            && Sane(part) && OnDisk(part)
            && exists image, f :: |image| == 60 && !KeptInside(part, MemoryOf(image), f)
  {
    var part := Partition(0xFFFF_FFF8, 7, 512, 32);
    SmallPartition(part);
    OverrunEscapes(part);
    var image, f := Encode(OverrunJob(part).h, Overrun(part)), OverrunJob(part).faults;
    assert |image| == 60 && !KeptInside(part, MemoryOf(image), f);
  }

  lemma {:induction false} SmallPartition(part: Partition)
    requires part == Partition(0xFFFF_FFF8, 7, 512, 32)
    ensures Sane(part) && OnDisk(part) && !Roomy(part) && FillingChunks(part) == 1
  {
    assert Pow2(9) == 512;
    Pow2Of32();
    assert MaxBlocks(part) == 8388607;
    assert Reach(part) == 7;
  }
}
