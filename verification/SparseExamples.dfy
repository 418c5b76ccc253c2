/** Small images that show, on every partition with room for them, what the general statements are about. */
module SparseExamples {
  import opened Words
  import opened Wrappers
  import opened SparseFormat
  import opened SparseRun
  import opened SparseDisk
  import opened SparseContainment
  import opened SparseWriter
  import opened SparseImage
  import opened SparsePlacement

  // ---------------------------------------------------------------- a hole and a block

  function HoleChunk(n: u32): Chunk {
    Chunk(DONT_CARE, n, CHUNK_HEADER_LEN, [])
  }

  /** A hole of `n` blocks and a block filled with `word`. */
  function HoleAndBlock(n: u32, word: seq<byte>): (cs: seq<Chunk>)
    ensures |cs| == 2
  {
    [HoleChunk(n), FillChunk(1, word)]
  }

  function ImageOf(h: Header, cs: seq<Chunk>): Memory {
    MemoryOf(Encode(h, cs))
  }

  lemma {:induction false} HoleAndBlockPlan(j: Job, cs: seq<Chunk>, n: u32, word: seq<byte>)
    requires Sane(j.part) && j == FillJob(j.part, j.h.totalBlks, 2) && |word| == 4 && cs == HoleAndBlock(n, word)
    ensures Extent(j, cs, 1) == 0 && Extent(j, cs, 2) == 1 && Tally(j.h, cs, 2) == n + 1
    ensures Plan(j, cs, 2) == [Request(Lba(j.part, 0), 1, Repeat(word, j.part.blksz / 4))]
    ensures Expand(j.h, cs, 2) == Repeat(word, j.part.blksz / 4)
  {
    FillChunkBlocks(j, 1, word);
    DivModUnique(j.part.blksz, j.part.blksz, 1, 0);
    assert DataSize(j.h, 1) == j.part.blksz;
    assert Plan(j, cs, 1) == [];
    assert Expand(j.h, cs, 1) == [];
    assert Tally(j.h, cs, 1) == n;
  }

  lemma {:induction false} HoleAndBlockFits(j: Job, cs: seq<Chunk>, n: u32, word: seq<byte>)
    requires Sane(j.part) && j == FillJob(j.part, j.h.totalBlks, 2) && |word| == 4 && cs == HoleAndBlock(n, word)
    ensures Ready(j) && Printable(j.h, cs) && Conforming(j.h, cs) && NoFaults(j, cs)
  {
    DivModUnique(j.part.blksz, j.part.blksz, 1, 0);
    HoleAndBlockPlan(j, cs, n, word);
  }

  /** Whatever the length of the hole in front of it, the block is written to the first block of the partition, and no
      other block changes: not the one `n` blocks further on, where the format puts it. The host is told OKAY. */
  lemma {:induction false} HoleMovesData(j: Job, cs: seq<Chunk>, m: Memory, n: u32, word: seq<byte>,
                                         disk: nat -> Block, b: nat)
    requires Sane(j.part) && OnDisk(j.part) && j.part.size > 0 && n + 1 < TWO32 && |word| == 4
    requires j == FillJob(j.part, n + 1, 2) && cs == HoleAndBlock(n, word) && m == ImageOf(j.h, cs)
    ensures HeaderAt(m) == j.h && Decode(m, j.h) == cs && Verdict(j.h, cs) == []
    ensures FormatBlock(j, cs, 1, 0) == j.part.start + n
    ensures var o := Run(j, cs, 0, START);
            && o.end.Finished? && AllWhole(j.part.blksz, o.s.requests)
            && Content(disk, j.part.blksz, o.s.requests, |o.s.requests|, b)
               == if b == j.part.start then Repeat(word, j.part.blksz / 4) else disk(b)
  {
    HoleAndBlockFits(j, cs, n, word);
    HoleAndBlockPlan(j, cs, n, word);
    FlashesBlock(m, j, cs, Repeat(word, j.part.blksz / 4), disk, b);
    HoleAndBlockPlace(j, cs, n, word);
    RightCount(j.h, cs, n + 1);
  }

  lemma {:induction false} RightCount(h: Header, cs: seq<Chunk>, n: u32)
    requires Tally(h, cs, |cs|) == n == h.totalBlks
    ensures Verdict(h, cs) == []
  {
  }

  lemma {:induction false} HoleAndBlockPlace(j: Job, cs: seq<Chunk>, n: u32, word: seq<byte>)
    requires j.part.blksz > 0 && j.h.blkSz == j.part.blksz && cs == HoleAndBlock(n, word)
    ensures FormatBlock(j, cs, 1, 0) == j.part.start + n
  {
    DivModUnique(j.part.blksz, j.part.blksz, 1, 0);
    assert Position(cs, 0) == 0;
  }

  /** A printed, conforming image that stands for one block. */
  lemma {:induction false} FlashesBlock(m: Memory, j: Job, cs: seq<Chunk>, block: Block, disk: nat -> Block, b: nat)
    requires Ready(j) && OnDisk(j.part) && Printable(j.h, cs) && Holds(m, 0, Encode(j.h, cs)) && Conforming(j.h, cs)
    requires NoFaults(j, cs) && Extent(j, cs, |cs|) == 1 <= j.part.size && Expand(j.h, cs, |cs|) == block
    ensures HeaderAt(m) == j.h && Decode(m, j.h) == cs
    ensures var o := Run(j, cs, 0, START);
            && o.end.Finished? && AllWhole(j.part.blksz, o.s.requests)
            && Content(disk, j.part.blksz, o.s.requests, |o.s.requests|, b)
               == if b == j.part.start then block else disk(b)
  {
    FlashesImage(m, j, cs, disk, b);
    PlacedOne(disk, j.part, block, b);
  }

  lemma {:induction false} PlacedOne(disk: nat -> Block, part: Partition, block: Block, b: nat)
    requires |block| == 1 * part.blksz
    ensures Placed(disk, part, block, 1, b) == if b == part.start then block else disk(b)
  {
    if b == part.start {
      assert Piece(block, part.blksz, 0, 1) == block;
    }
  }

  /** The same image with any other block count: it is flashed all the same, and the host is told OKAY with a failure
      message after it. */
  lemma {:induction false} MiscountIsOkay(j: Job, cs: seq<Chunk>, m: Memory, n: u32, word: seq<byte>, first: Status)
    requires Sane(j.part) && OnDisk(j.part) && j.part.size > 0 && |word| == 4 && j.h.totalBlks != (n + 1) % TWO32
    requires j == FillJob(j.part, j.h.totalBlks, 2) && cs == HoleAndBlock(n, word) && m == ImageOf(j.h, cs)
    ensures HeaderAt(m) == j.h && Decode(m, j.h) == cs
    ensures var log := Responses(j.h, Run(j, cs, 0, START));
            LastStatus(first, log) == OKAY && Failures(log) == [Said(Miscount)]
  {
    HoleAndBlockFits(j, cs, n, word);
    HoleAndBlockPlan(j, cs, n, word);
    PrintedReport(m, j, cs, first);
  }

  // ---------------------------------------------------------------- one fill chunk

  function OneFill(n: u32, word: seq<byte>): (cs: seq<Chunk>)
    ensures |cs| == 1
  {
    [FillChunk(n, word)]
  }

  lemma {:induction false} OneBlockPlan(j: Job, cs: seq<Chunk>, word: seq<byte>)
    requires Sane(j.part) && j == FillJob(j.part, 1, 1) && |word| == 4 && cs == OneFill(1, word)
    ensures Extent(j, cs, 1) == 1 && Tally(j.h, cs, 1) == 1
    ensures Plan(j, cs, 1) == [Request(Lba(j.part, 0), 1, Repeat(word, j.part.blksz / 4))]
    ensures Expand(j.h, cs, 1) == Repeat(word, j.part.blksz / 4)
  {
    FillChunkBlocks(j, 1, word);
    DivModUnique(j.part.blksz, j.part.blksz, 1, 0);
    assert DataSize(j.h, 1) == j.part.blksz;
  }

  /** On every partition with room, the image of one filled block is conforming, and is flashed as that block. */
  lemma {:induction false} OneBlockImage(j: Job, cs: seq<Chunk>, m: Memory, word: seq<byte>, disk: nat -> Block, b: nat)
    requires Sane(j.part) && OnDisk(j.part) && j.part.size > 0 && |word| == 4
    requires j == FillJob(j.part, 1, 1) && cs == OneFill(1, word) && m == ImageOf(j.h, cs)
    ensures Printable(j.h, cs) && Conforming(j.h, cs) && NoFaults(j, cs)
    ensures HeaderAt(m) == j.h && Decode(m, j.h) == cs && Verdict(j.h, cs) == []
    ensures var o := Run(j, cs, 0, START);
            && o.end.Finished? && AllWhole(j.part.blksz, o.s.requests)
            && Content(disk, j.part.blksz, o.s.requests, |o.s.requests|, b)
               == if b == j.part.start then Repeat(word, j.part.blksz / 4) else disk(b)
  {
    DivModUnique(j.part.blksz, j.part.blksz, 1, 0);
    OneBlockPlan(j, cs, word);
    FlashesBlock(m, j, cs, Repeat(word, j.part.blksz / 4), disk, b);
    RightCount(j.h, cs, 1);
  }

  /** A printed fill chunk behind a file header of 32 bytes is read four bytes late: its block count is taken for its
      kind, and the image is refused. */
  lemma {:induction false} LongHeaderMisread(j: Job, m: Memory, n: u32, word: seq<byte>)
    requires Sane(j.part) && n < RAW && j.h.fileHdrSz == 32 && j.h.totalChunks == 1
    requires m == ImageOf(j.h, OneFill(n, word))
    ensures HeaderAt(m) == j.h && Decode(m, j.h)[0].kind == n
    ensures Run(j, Decode(m, j.h), 0, START).end == Halted(0, UnknownType)
  {
    HoldsSplit(m, 0, EncodeHeader(j.h), EncodeChunks(j.h, OneFill(n, word), 1));
    HeaderRoundTrip(m, j.h);
    LateKind(m, j.h, n, word);
    UnknownHalts(j, Decode(m, j.h), n);
  }

  lemma {:induction false} UnknownHalts(j: Job, cs: seq<Chunk>, n: u32)
    requires j.part.blksz > 0 && |cs| == 1 && cs[0].kind == n < RAW
    ensures Run(j, cs, 0, START).end == Halted(0, UnknownType)
  {
    EndsAtRefusal(j, cs, 0);
  }

  lemma {:induction false} LateKind(m: Memory, h: Header, n: u32, word: seq<byte>)
    requires h.fileHdrSz == 32 && n < 0x1_0000 && Holds(m, 32, EncodeChunks(h, OneFill(n, word), 1))
    ensures Load16(m, Cursor(m, h, 0)) == n
  {
    HoldsChunk(m, h, 32, OneFill(n, word), 1, 0);
    ChunkParts(m, h, 32, FillChunk(n, word));
    LowHalf(m, 36, n);
  }

  lemma {:induction false} LowHalf(m: Memory, p: nat, n: u32)
    requires Holds(m, p, Le32(n)) && n < 0x1_0000
    ensures Load16(m, p) == n
  {
    Load32Le32(m, p, n);
  }

  /** A printed fill chunk of an image with block size 0 gets through the block size check and all others, and then
      traps, with its buffer still allocated. */
  lemma {:induction false} ZeroBlockSizeTraps(j: Job, cs: seq<Chunk>, m: Memory, n: u32, word: seq<byte>)
    requires Sane(j.part) && OnDisk(j.part) && j.faults.alloc(0) && |word| == 4
    requires j.h == FillJob(j.part, n, 1).h.(blkSz := 0) && cs == OneFill(n, word) && m == ImageOf(j.h, cs)
    ensures HeaderAt(m) == j.h && Decode(m, j.h) == cs && Ready(j)
    ensures Run(j, cs, 0, START).end == Trapped(0) && Leaked(cs, Trapped(0)) == 1
  {
    DivModUnique(0, j.part.blksz, 0, 0);
    RoundTrip(m, j.h, cs);
    NothingToFill(j, 0, cs[0]);
    FitsIsAccepted(j.part, 0, 0);
    ZeroFillTraps(j, cs, 0);
  }

  /** A printed fill chunk of one block more than the partition has is refused, with its buffer still allocated. */
  lemma {:induction false} FillTooBigLeaks(j: Job, cs: seq<Chunk>, m: Memory, n: u32, word: seq<byte>)
    requires Sane(j.part) && n == j.part.size + 1 <= MaxBlocks(j.part) && j.part.start + n < Pow2(j.part.bits)
    requires |word| == 4 && j == FillJob(j.part, n, 1) && cs == OneFill(n, word) && m == ImageOf(j.h, cs)
    ensures HeaderAt(m) == j.h && Decode(m, j.h) == cs && Ready(j)
    ensures Run(j, cs, 0, START).end == Halted(0, TooBig) && Leaked(cs, Halted(0, TooBig)) == 1
  {
    DivModUnique(j.part.blksz, j.part.blksz, 1, 0);
    RoundTrip(m, j.h, cs);
    TooBigHalts(j, cs, n, word);
  }

  lemma {:induction false} TooBigHalts(j: Job, cs: seq<Chunk>, n: u32, word: seq<byte>)
    requires Sane(j.part) && n == j.part.size + 1 <= MaxBlocks(j.part) && j.part.start + n < Pow2(j.part.bits)
    requires j == FillJob(j.part, n, 1) && cs == OneFill(n, word)
    ensures Run(j, cs, 0, START).end == Halted(0, TooBig)
  {
    MaxBlocksBound(j.part, n);
    FillChunkBlocks(j, n, word);
    OneMoreExceeds(j.part);
    EndsAtRefusal(j, cs, 0);
  }

  lemma {:induction false} OneMoreExceeds(part: Partition)
    requires part.start + part.size + 1 < Pow2(part.bits)
    ensures Exceeds(part, 0, part.size + 1)
  {
  }
}
