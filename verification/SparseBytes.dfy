/** One image, byte by byte: what the writer makes of each kind of chunk, without going through the printer. */
module SparseBytes {
  import opened Words
  import opened Wrappers
  import opened SparseFormat
  import opened SparseRun
  import opened SparseDisk
  import opened SparseContainment
  import opened SparseImage

  /** A file header, field by field. */
  ghost predicate HoldsHeader(m: Memory) {
    && Holds(m, 0, [0x3A, 0xFF, 0x26, 0xED])
    && Holds(m, 4, [0x01, 0x00]) && Holds(m, 6, [0x02, 0x00])
    && Holds(m, 8, [0x1C, 0x00]) && Holds(m, 10, [0x10, 0x00])
    && Holds(m, 12, [0x00, 0x02, 0x00, 0x00])
    && Holds(m, 16, [0x07, 0x00, 0x00, 0x00])
    && Holds(m, 20, [0x05, 0x00, 0x00, 0x00])
    && Holds(m, 24, [0x78, 0x56, 0x34, 0x12])
  }

  const FILL_WORD: seq<byte> := [0xAA, 0xBB, 0xCC, 0xDD]

  /** The twelve bytes of a chunk header of fewer than 256 blocks and 65536 bytes. */
  function ChunkBytes(kind: byte, blocks: byte, low: byte, high: byte): seq<byte> {
    [kind, 0xCA, 0x00, 0x00, blocks, 0x00, 0x00, 0x00, low, high, 0x00, 0x00]
  }

  /** An image of 512-byte blocks with chunk headers of 16 bytes, whose last four may be anything: a raw block, two
      blocks to fill, a CRC32 chunk for one block with 512 bytes behind it, one for none, and a hole of three. */
  ghost predicate HoldsImage(m: Memory, payload: seq<byte>) {
    && HoldsHeader(m)
    && Holds(m, 28, ChunkBytes(0xC1, 1, 0x10, 0x02)) && |payload| == 512 && Holds(m, 44, payload)
    && Holds(m, 556, ChunkBytes(0xC2, 2, 0x14, 0x00)) && Holds(m, 572, FILL_WORD)
    && Holds(m, 576, ChunkBytes(0xC4, 1, 0x10, 0x00))
    && Holds(m, 1104, ChunkBytes(0xC4, 0, 0x10, 0x00))
    && Holds(m, 1120, ChunkBytes(0xC3, 3, 0x10, 0x00))
  }

  const IMAGE_HEADER := Header(0xED26_FF3A, 1, 2, 28, 16, 512, 7, 5, 0x1234_5678)

  function ImageChunks(payload: seq<byte>): seq<Chunk> {
    [Chunk(0xCAC1, 1, 528, payload), Chunk(0xCAC2, 2, 20, FILL_WORD),
     Chunk(0xCAC4, 1, 16, []), Chunk(0xCAC4, 0, 16, []), Chunk(0xCAC3, 3, 16, [])]
  }

  lemma {:induction false} HalfAt(m: Memory, p: nat, s: seq<byte>, i: nat, a: int, b: int)
    requires Holds(m, p, s) && i + 2 <= |s| && s[i] == a && s[i + 1] == b
    ensures Load16(m, p + i) == a + 256 * b
  {
    assert m(p + (i + 1)) == b;
  }

  lemma {:induction false} WordAt(m: Memory, p: nat, s: seq<byte>, i: nat, a: int, b: int, c: int, d: int)
    requires Holds(m, p, s) && i + 4 <= |s| && s[i] == a && s[i + 1] == b && s[i + 2] == c && s[i + 3] == d
    ensures Load32(m, p + i) == a + 256 * b + 65536 * c + 16777216 * d
  {
    assert m(p + (i + 1)) == b && m(p + (i + 2)) == c && m(p + (i + 3)) == d;
  }

  lemma {:induction false} HeaderOfBytes(m: Memory)
    requires HoldsHeader(m)
    ensures HeaderAt(m) == IMAGE_HEADER
  {
    WordAt(m, 0, [0x3A, 0xFF, 0x26, 0xED], 0, 0x3A, 0xFF, 0x26, 0xED);
    HalfAt(m, 4, [0x01, 0x00], 0, 1, 0);
    HalfAt(m, 6, [0x02, 0x00], 0, 2, 0);
    HalfAt(m, 8, [0x1C, 0x00], 0, 0x1C, 0);
    HalfAt(m, 10, [0x10, 0x00], 0, 0x10, 0);
    WordAt(m, 12, [0x00, 0x02, 0x00, 0x00], 0, 0, 2, 0, 0);
    WordAt(m, 16, [0x07, 0x00, 0x00, 0x00], 0, 7, 0, 0, 0);
    WordAt(m, 20, [0x05, 0x00, 0x00, 0x00], 0, 5, 0, 0, 0);
    WordAt(m, 24, [0x78, 0x56, 0x34, 0x12], 0, 0x78, 0x56, 0x34, 0x12);
  }

  /** A chunk header read from its bytes, and the bytes behind it. */
  lemma {:induction false} ChunkOfBytes(m: Memory, p: nat, kind: byte, blocks: byte, low: byte, high: byte,
                                        body: seq<byte>, next: nat)
    requires Holds(m, p, ChunkBytes(kind, blocks, low, high)) && Holds(m, p + 16, body)
    requires |body| == if kind == 0xC1 then 512 * blocks else if kind == 0xC2 then 4 else 0
    requires 0xC1 <= kind <= 0xC4 && next == p + 16 + if kind == 0xC4 then 512 * blocks else |body|
    ensures ChunkAt(m, IMAGE_HEADER, p) == Chunk(0xCA00 + kind, blocks, low + 256 * high, body)
    ensures NextAt(m, IMAGE_HEADER, p) == next
  {
    var s := ChunkBytes(kind, blocks, low, high);
    HalfAt(m, p, s, 0, kind, 0xCA);
    WordAt(m, p, s, 4, blocks, 0, 0, 0);
    WordAt(m, p, s, 8, low, high, 0, 0);
    HoldsBytes(m, p + 16, body);
  }

  /** What is decoded, and where the walk ends. */
  lemma {:induction false} ImageDecoded(m: Memory, payload: seq<byte>)
    requires HoldsImage(m, payload)
    ensures HeaderAt(m) == IMAGE_HEADER && Decode(m, IMAGE_HEADER) == ImageChunks(payload)
    ensures Cursor(m, IMAGE_HEADER, 5) == 1136
  {
    var h := IMAGE_HEADER;
    HeaderOfBytes(m);
    ChunkOfBytes(m, 28, 0xC1, 1, 0x10, 0x02, payload, 556);
    ChunkOfBytes(m, 556, 0xC2, 2, 0x14, 0x00, FILL_WORD, 576);
    ChunkOfBytes(m, 576, 0xC4, 1, 0x10, 0x00, [], 1104);
    ChunkOfBytes(m, 1104, 0xC4, 0, 0x10, 0x00, [], 1120);
    ChunkOfBytes(m, 1120, 0xC3, 3, 0x10, 0x00, [], 1136);
    assert Cursor(m, h, 0) == 28;
    assert Cursor(m, h, 1) == 556;
    assert Cursor(m, h, 2) == 576;
    assert Cursor(m, h, 3) == 1104;
    assert Cursor(m, h, 4) == 1120;
  }

  lemma {:induction false} RepeatAt(word: seq<byte>, n: nat, i: nat)
    requires |word| == 4 && i < 4 * n
    ensures |Repeat(word, n)| == 4 * n && Repeat(word, n)[i] == word[i % 4]
  {
    RepeatLen(word, n);
    RepeatLen(word, n - 1);
    if i < 4 * (n - 1) { RepeatAt(word, n - 1, i); }
  }

  /** A block that holds the fill word over and over. */
  ghost predicate FilledBlock(block: seq<byte>) {
    |block| == 512 && forall i :: 0 <= i < 512 ==> block[i] == FILL_WORD[i % 4]
  }

  lemma {:induction false} RepeatFills()
    ensures FilledBlock(Repeat(FILL_WORD, 128))
  {
    RepeatLen(FILL_WORD, 128);
    forall i | 0 <= i < 512 ensures Repeat(FILL_WORD, 128)[i] == FILL_WORD[i % 4] {
      RepeatAt(FILL_WORD, 128, i);
    }
  }

  lemma {:induction false} ImagePlan(j: Job, cs: seq<Chunk>, payload: seq<byte>, block: seq<byte>)
    requires j.h == IMAGE_HEADER && j.part.blksz == 512 && cs == ImageChunks(payload) && block == Repeat(FILL_WORD, 128)
    requires OnDisk(j.part) && 3 <= j.part.size
    ensures Plan(j, cs, 5) == [Request(j.part.start, 1, payload), Request(j.part.start + 1, 1, block),
                               Request(j.part.start + 2, 1, block)]
    ensures Extent(j, cs, 5) == 3 && Tally(j.h, cs, 5) == 7
  {
    var raw, fill := Request(j.part.start, 1, payload), FillRequests(j.part, 1, 2, block);
    assert Extent(j, cs, 1) == 1 && Extent(j, cs, 2) == 3 && Extent(j, cs, 3) == 3 && Extent(j, cs, 4) == 3;
    assert Plan(j, cs, 1) == [raw];
    assert Plan(j, cs, 2) == [raw] + fill;
    assert Plan(j, cs, 3) == [raw] + fill;
    assert Plan(j, cs, 4) == [raw] + fill;
    assert Tally(j.h, cs, 1) == 1 && Tally(j.h, cs, 2) == 3 && Tally(j.h, cs, 3) == 4 && Tally(j.h, cs, 4) == 4;
  }

  lemma {:induction false} ImageConforms(payload: seq<byte>)
    requires |payload| == 512
    ensures Conforming(IMAGE_HEADER, ImageChunks(payload)) && Sized(IMAGE_HEADER, ImageChunks(payload))
  {
  }

  /** Nothing fails, on requests of one block. */
  ghost predicate AllTaken(f: Faults) {
    (forall k: nat :: f.alloc(k)) && (forall i: nat :: f.answer(i) == 1)
  }

  lemma {:induction false} PlannedRun(j: Job, cs: seq<Chunk>, plan: seq<Request>)
    requires OnDisk(j.part) && j.part.blksz > 0 && Sized(j.h, cs) && Conforming(j.h, cs) && AllTaken(j.faults)
    requires plan == Plan(j, cs, |cs|) && Extent(j, cs, |cs|) <= j.part.size
    requires forall i :: 0 <= i < |plan| ==> plan[i].cnt == 1
    ensures Run(j, cs, 0, START) == Outcome(StateAt(j, cs, |cs|), Finished)
  {
    ConformingPasses(j, cs);
    FinishesExactly(j, cs);
    RunShape(j, cs);
  }

  lemma {:induction false} SmallState(j: Job, cs: seq<Chunk>, off: nat, total: nat)
    requires j.part.blksz == 512 && off == Extent(j, cs, |cs|) && total == Tally(j.h, cs, |cs|)
    requires off * 512 < TWO32 && total < TWO32
    ensures StateAt(j, cs, |cs|) == State(Plan(j, cs, |cs|), off, off * 512, total)
  {
    SmallMod(off * 512);
    SmallMod(total);
  }

  lemma {:induction false} ImageOutcome(j: Job, cs: seq<Chunk>, payload: seq<byte>, block: seq<byte>,
                                        plan: seq<Request>)
    requires j.h == IMAGE_HEADER && OnDisk(j.part) && j.part.blksz == 512 && 3 <= j.part.size && AllTaken(j.faults)
    requires |payload| == 512 && cs == ImageChunks(payload) && block == Repeat(FILL_WORD, 128)
    requires plan == [Request(j.part.start, 1, payload), Request(j.part.start + 1, 1, block),
                      Request(j.part.start + 2, 1, block)]
    ensures Run(j, cs, 0, START) == Outcome(State(plan, 3, 1536, 7), Finished)
  {
    ImagePlan(j, cs, payload, block);
    ImageConforms(payload);
    PlannedRun(j, cs, plan);
    SmallState(j, cs, 3, 7);
  }

  /** On every partition of 512-byte blocks with room for three, and no faults: the raw block and the two filled blocks
      are written to the first three, nothing else is asked for, and all seven blocks are counted. */
  lemma {:induction false} ImageRun(j: Job, m: Memory, payload: seq<byte>) returns (block: seq<byte>)
    requires HoldsImage(m, payload) && j.h == HeaderAt(m) && AllTaken(j.faults)
    requires OnDisk(j.part) && j.part.blksz == 512 && 3 <= j.part.size
    ensures FilledBlock(block)
    ensures var o := Run(j, Decode(m, j.h), 0, START);
            && o.end == Finished && o.s.off == 3 && o.s.bytes == 1536 && o.s.total == 7
            && o.s.requests == [Request(j.part.start, 1, payload), Request(j.part.start + 1, 1, block),
                                Request(j.part.start + 2, 1, block)]
  {
    block := Repeat(FILL_WORD, 128);
    RepeatFills();
    ImageDecoded(m, payload);
    var plan := [Request(j.part.start, 1, payload), Request(j.part.start + 1, 1, block),
                 Request(j.part.start + 2, 1, block)];
    ImageOutcome(j, ImageChunks(payload), payload, block, plan);
  }
}
