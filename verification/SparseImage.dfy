/** What flashing means for an image as a whole: conforming images, the disk afterwards, what is reported, and what is
    left allocated. */
module SparseImage {
  import opened Words
  import opened Wrappers
  import opened SparseFormat
  import opened SparseRun
  import opened SparseDisk
  import opened SparseContainment
  import opened SparseWriter

  // ---------------------------------------------------------------- the disk after any run

  /** After any run over any image, the blocks outside the failing request hold a prefix of the image's
      expansion at the start of the partition, and what was there before everywhere else. */
  lemma {:induction false} DiskAfterRun(j: Job, cs: seq<Chunk>, disk: nat -> Block, b: nat)
    requires Ready(j) && Sized(j.h, cs) && OnDisk(j.part) && Roomy(j.part) && |cs| < TWO32
    ensures var o, plan := Run(j, cs, 0, START), Plan(j, cs, |cs|);
            var n := Accepted(o);
            && n <= |o.s.requests| <= |plan| && AllWhole(j.part.blksz, o.s.requests)
            && Flat(plan, n) <= Expand(j.h, cs, |cs|) && Count(plan, n) <= j.part.size
            && |Flat(plan, n)| == Count(plan, n) * j.part.blksz
            && Content(disk, j.part.blksz, o.s.requests, n, b) == Placed(disk, j.part, Flat(plan, n), Count(plan, n), b)
  {
    var o, plan := Run(j, cs, 0, START), Plan(j, cs, |cs|);
    var n, reqs := Accepted(o), o.s.requests;
    StopsAtPrefix(j, cs);
    Containment(j, cs);
    RequestedFits(j, cs);
    LaidWhole(j.part, 0, reqs);
    CountSame(reqs, plan, n);
    CountMonotone(reqs, n, |reqs|);
    ContentIs(disk, j.part, reqs, n, b);
  }

  // ---------------------------------------------------------------- conforming images

  predicate Known(c: Chunk) {
    c.kind == RAW || c.kind == FILL || c.kind == DONT_CARE || c.kind == CRC32
  }

  /** The 32-bit sizes of a chunk that writes do not wrap around; a hole may be of any size. */
  predicate NoWrap(h: Header, c: Chunk) {
    Writes(c) ==> h.blkSz * c.blocks + (if c.kind == RAW then h.chunkHdrSz else 0) < TWO32
  }

  /** An image the format allows and this writer accepts: chunk headers of at least 12 bytes, correct
      total sizes, no 32-bit overflow, and a block size if there is anything to fill. */
  ghost predicate Conforming(h: Header, cs: seq<Chunk>) {
    && h.chunkHdrSz >= CHUNK_HEADER_LEN
    && forall k :: 0 <= k < |cs| ==>
         Known(cs[k]) && NoWrap(h, cs[k]) && Divides(h, cs[k]) && cs[k].total == h.chunkHdrSz + |cs[k].body|
  }

  /** Nothing fails: every buffer is allocated and every request answered in full. */
  ghost predicate NoFaults(j: Job, cs: seq<Chunk>)
    requires j.part.blksz > 0
  {
    var plan := Plan(j, cs, |cs|);
    Allocates(j, |cs|) && Answers(j.faults.answer, plan, 0, |plan|)
  }

  ghost predicate Allocates(j: Job, n: nat) {
    forall k :: 0 <= k < n ==> j.faults.alloc(k)
  }

  lemma {:induction false} ConformingRefusal(j: Job, cs: seq<Chunk>, k: nat)
    requires OnDisk(j.part) && j.part.blksz > 0 && Sized(j.h, cs) && Conforming(j.h, cs) && k < |cs|
    requires j.faults.alloc(k) && Extent(j, cs, k + 1) <= j.part.size
    ensures Refusal(j, k, Extent(j, cs, k), cs[k]).None?
  {
    var c := cs[k];
    assert Known(c) && NoWrap(j.h, c);
    FitsIsAccepted(j.part, Extent(j, cs, k), Blocks(j, c));
    if c.kind == RAW { NoWrapSize(j.h, c); }
  }

  lemma {:induction false} NoWrapSize(h: Header, c: Chunk)
    requires NoWrap(h, c) && c.kind == RAW
    ensures (h.chunkHdrSz + DataSize(h, c.blocks)) % TWO32 == h.chunkHdrSz + DataSize(h, c.blocks)
  {
    var x: nat := h.blkSz * c.blocks;
    assert x % TWO32 == x;
  }

  predicate Admitted(j: Job, cs: seq<Chunk>, k: nat)
    requires j.part.blksz > 0 && k < |cs|
  {
    Refusal(j, k, Extent(j, cs, k), cs[k]).None? && Divides(j.h, cs[k])
  }

  lemma {:induction false} AnswersBelow(answer: nat -> nat, a: seq<Request>, b: seq<Request>, from: nat)
    requires a <= b && Answers(answer, b, 0, |b|)
    ensures Answers(answer, a, from, |a|)
  {
  }

  lemma {:induction false} AdmittedPass(j: Job, cs: seq<Chunk>, k: nat, p: seq<Request>)
    requires j.part.blksz > 0 && k < |cs| && Admitted(j, cs, k)
    requires p == Plan(j, cs, k + 1) && Answers(j.faults.answer, p, 0, |p|)
    ensures Passes(j, cs, k)
  {
  }

  lemma {:induction false} EachPasses(j: Job, cs: seq<Chunk>, k: nat)
    requires j.part.blksz > 0 && k <= |cs| && forall i :: 0 <= i < |cs| ==> Passes(j, cs, i)
    ensures PassesAll(j, cs, k)
  {
    if k > 0 { EachPasses(j, cs, k - 1); }
  }

  lemma {:induction false} ConformingPasses(j: Job, cs: seq<Chunk>)
    requires OnDisk(j.part) && j.part.blksz > 0 && Sized(j.h, cs) && Conforming(j.h, cs)
    requires NoFaults(j, cs) && Extent(j, cs, |cs|) <= j.part.size
    ensures PassesAll(j, cs, |cs|)
  {
    var plan := Plan(j, cs, |cs|);
    forall k | 0 <= k < |cs| ensures Passes(j, cs, k) {
      PlanPrefix(j, cs, k + 1, |cs|);
      ConformingRefusal(j, cs, k);
      AnswersBelow(j.faults.answer, Plan(j, cs, k + 1), plan, 0);
      AdmittedPass(j, cs, k, Plan(j, cs, k + 1));
    }
    EachPasses(j, cs, |cs|);
  }

  /** A printed, conforming image that fits is flashed: the partition starts with exactly the bytes the
      image stands for, without gaps, and every other block of the disk is unchanged. */
  lemma {:induction false} FlashesImage(m: Memory, j: Job, cs: seq<Chunk>, disk: nat -> Block, b: nat)
    requires Ready(j) && OnDisk(j.part) && Printable(j.h, cs) && Holds(m, 0, Encode(j.h, cs)) && Conforming(j.h, cs)
    requires NoFaults(j, cs) && Extent(j, cs, |cs|) <= j.part.size
    ensures HeaderAt(m) == j.h && Decode(m, j.h) == cs
    ensures var o := Run(j, cs, 0, START);
            && o.end.Finished? && AllWhole(j.part.blksz, o.s.requests)
            && |Expand(j.h, cs, |cs|)| == Extent(j, cs, |cs|) * j.part.blksz
            && Content(disk, j.part.blksz, o.s.requests, |o.s.requests|, b)
               == Placed(disk, j.part, Expand(j.h, cs, |cs|), Extent(j, cs, |cs|), b)
  {
    RoundTrip(m, j.h, cs);
    ConformingPasses(j, cs);
    FinishesExactly(j, cs);
    RunShape(j, cs);
    var plan := Plan(j, cs, |cs|);
    PlanFlat(j, cs, |cs|);
    PlanLaid(j, cs, |cs|, Plan(j, cs, |cs|));
    LaidWhole(j.part, 0, plan);
    ContentIs(disk, j.part, plan, |plan|, b);
  }

  /** What it takes for a chunk not to be refused: a known kind, a total size that is header plus payload (which is
      not looked at for a hole), a buffer for a fill chunk, and room. */
  lemma {:induction false} RefusalExactly(j: Job, k: nat, off: nat, c: Chunk)
    requires j.part.blksz > 0 && |c.body| == BodyLen(j.h, c.kind, c.blocks)
    ensures Refusal(j, k, off, c).None? <==>
            && Known(c)
            && (c.kind != DONT_CARE ==> c.total == (j.h.chunkHdrSz + |c.body|) % TWO32)
            && (c.kind == FILL ==> j.faults.alloc(k))
            && (Writes(c) ==> !Exceeds(j.part, off, Blocks(j, c)))
  {
    if c.kind != RAW { SmallMod(j.h.chunkHdrSz + |c.body|); }
  }

  lemma {:induction false} SmallMod(x: nat)
    requires x < TWO32
    ensures x % TWO32 == x
  {
  }

  // ---------------------------------------------------------------- why a run is given up

  /** The total size is that of the header and the payload; a hole is not looked at. */
  predicate RightTotal(h: Header, c: Chunk) {
    if c.kind == RAW then c.total == (h.chunkHdrSz + h.blkSz * c.blocks) % TWO32
    else if c.kind == FILL then c.total == h.chunkHdrSz + 4
    else if c.kind == CRC32 then c.total == h.chunkHdrSz
    else true
  }

  /** `n` more blocks behind the first `off` end, in `lbaint_t`, beyond the end of the partition. */
  predicate NoRoom(part: Partition, off: nat, n: nat) {
    ((part.start + off) % Pow2(part.bits) + n) % Pow2(part.bits) > (part.start + part.size) % Pow2(part.bits)
  }

  /** Some request of chunk `k` is not answered in full. */
  ghost predicate NotAnswered(j: Job, cs: seq<Chunk>, k: nat)
    requires j.part.blksz > 0 && k < |cs|
  {
    var reqs := Plan(j, cs, k + 1);
    exists i :: |Plan(j, cs, k)| <= i < |reqs| && j.faults.answer(i) != reqs[i].cnt
  }

  /** Chunk `k`, after chunks that passed, is what failure `f` speaks of. */
  ghost predicate GivesUp(j: Job, cs: seq<Chunk>, k: nat, f: Failure)
    requires j.part.blksz > 0 && k < |cs|
  {
    var c := cs[k];
    var ready := RightTotal(j.h, c) && (c.kind == FILL ==> j.faults.alloc(k));
    var full := NoRoom(j.part, Extent(j, cs, k), Blocks(j, c));
    match f
    case BogusRaw => c.kind == RAW && !RightTotal(j.h, c)
    case BogusFill => c.kind == FILL && !RightTotal(j.h, c)
    case BogusCrc => c.kind == CRC32 && !RightTotal(j.h, c)
    case NoMemory => c.kind == FILL && RightTotal(j.h, c) && !j.faults.alloc(k)
    case TooBig => Writes(c) && ready && full
    case WriteFailed => Writes(c) && ready && !full && NotAnswered(j, cs, k)
    case UnknownType => !Known(c)
    case BlockSize => false
    case Miscount => false
  }

  lemma {:induction false} NoRoomIsExceeds(part: Partition, off: nat, n: nat)
    ensures NoRoom(part, off, n) <==> Exceeds(part, off, n)
  {
    var span := Pow2(part.bits);
    WrapIsMod(part.start + off, span);
    WrapIsMod(Wrap(part.start + off, span) + n, span);
    WrapIsMod(part.start + part.size, span);
  }

  lemma {:induction false} TotalIsMod(h: Header, blocks: u32)
    ensures (h.chunkHdrSz + DataSize(h, blocks)) % TWO32 == (h.chunkHdrSz + h.blkSz * blocks) % TWO32
  {
    AddMod(h.blkSz * blocks, h.chunkHdrSz);
  }

  /** The refusal of a chunk, by what is wrong with it. */
  lemma {:induction false} RefusalCases(j: Job, k: nat, off: nat, c: Chunk, right: bool, full: bool)
    requires j.part.blksz > 0 && right == RightTotal(j.h, c) && full == NoRoom(j.part, off, Blocks(j, c))
    ensures Refusal(j, k, off, c) ==
            if !Known(c) then Some(UnknownType)
            else if !right then Some(if c.kind == RAW then BogusRaw else if c.kind == FILL then BogusFill else BogusCrc)
            else if !Writes(c) then None
            else if c.kind == FILL && !j.faults.alloc(k) then Some(NoMemory)
            else if full then Some(TooBig)
            else None
  {
    TotalIsMod(j.h, c.blocks);
    NoRoomIsExceeds(j.part, off, Blocks(j, c));
  }

  /** A refusal says what is wrong with the chunk. */
  lemma {:induction false} RefusalIs(j: Job, cs: seq<Chunk>, k: nat, f: Failure)
    requires j.part.blksz > 0 && k < |cs| && f != WriteFailed
    ensures Refusal(j, k, Extent(j, cs, k), cs[k]) == Some(f) <==> GivesUp(j, cs, k, f)
  {
    var c, off := cs[k], Extent(j, cs, k);
    RefusalCases(j, k, off, c, RightTotal(j.h, c), NoRoom(j.part, off, Blocks(j, c)));
  }

  lemma {:induction false} WriteFailureIs(j: Job, cs: seq<Chunk>, k: nat)
    requires j.part.blksz > 0 && k < |cs|
    ensures Refusal(j, k, Extent(j, cs, k), cs[k]).None? && NotAnswered(j, cs, k) <==> GivesUp(j, cs, k, WriteFailed)
  {
    var c, off := cs[k], Extent(j, cs, k);
    RefusalCases(j, k, off, c, RightTotal(j.h, c), NoRoom(j.part, off, Blocks(j, c)));
    if !Writes(c) { assert Plan(j, cs, k + 1) == Plan(j, cs, k); }
  }

  lemma {:induction false} HaltGivesUp(j: Job, cs: seq<Chunk>, k: nat, s: State, f: Failure)
    requires j.part.blksz > 0 && k < |cs| && HaltsAt(j, cs, k, s, f)
    ensures GivesUp(j, cs, k, f)
  {
    if f == WriteFailed {
      var i := |s.requests| - 1;
      assert j.faults.answer(i) != Plan(j, cs, k + 1)[i].cnt;
      WriteFailureIs(j, cs, k);
    } else {
      RefusalIs(j, cs, k, f);
    }
  }

  /** On a roomy partition, room is lacking exactly when the chunk ends behind the partition. */
  lemma {:induction false} NoRoomOnRoomy(part: Partition, off: nat, n: nat)
    requires Sane(part) && OnDisk(part) && Roomy(part) && off <= Reach(part) && n <= MaxBlocks(part)
    ensures NoRoom(part, off, n) <==> off + n > part.size
  {
    NoRoomIsExceeds(part, off, n);
  }

  /** Chunk `k` is the first that does not pass, and what failure `f` speaks of. */
  ghost predicate GivenUp(j: Job, cs: seq<Chunk>, k: nat, f: Failure)
    requires j.part.blksz > 0
  {
    k < |cs| && PassesAll(j, cs, k) && GivesUp(j, cs, k, f)
  }

  /** The run is given up at chunk `k` for reason `f` exactly when all chunks before it pass and it is what `f` speaks
      of. */
  lemma {:induction false} GivenUpExactly(j: Job, cs: seq<Chunk>, k: nat, f: Failure)
    requires j.part.blksz > 0
    ensures Run(j, cs, 0, START).end == Halted(k, f) <==> GivenUp(j, cs, k, f)
  {
    RunShape(j, cs);
    var o := Run(j, cs, 0, START);
    if o.end.Halted? { HaltGivesUp(j, cs, o.end.k, o.s, o.end.failure); }
    if GivenUp(j, cs, k, f) {
      if f == WriteFailed {
        EndsAtWriteFailure(j, cs, k);
      } else {
        RefusalIs(j, cs, k, f);
        EndsAtRefusal(j, cs, k);
      }
    }
  }

  lemma {:induction false} EndsAtWriteFailure(j: Job, cs: seq<Chunk>, k: nat)
    requires j.part.blksz > 0 && k < |cs| && PassesAll(j, cs, k) && GivesUp(j, cs, k, WriteFailed)
    ensures Run(j, cs, 0, START).end == Halted(k, WriteFailed)
  {
    WriteFailureIs(j, cs, k);
    StopsAt(j, cs, k);
    RunShape(j, cs);
  }

  /** What is appended to the reply when every chunk has passed. */
  function Verdict(h: Header, cs: seq<Chunk>): seq<Text> {
    if Tally(h, cs, |cs|) % TWO32 == h.totalBlks then [] else [Said(Miscount)]
  }

  /** What a run that does not trap adds to the reply: the verdict on the block count if every chunk passes, else the
      one failure that speaks of the first that does not. */
  ghost predicate Reports(j: Job, cs: seq<Chunk>, said: seq<Text>)
    requires j.part.blksz > 0
  {
    if PassesAll(j, cs, |cs|) then said == Verdict(j.h, cs)
    else exists k, f :: GivenUp(j, cs, k, f) && said == [Said(f)]
  }

  // ---------------------------------------------------------------- flashing

  /** The device holds what was there before with a prefix of the image's expansion at the start of the partition,
      except perhaps in the blocks of a request that was not answered in full. */
  ghost predicate ShowsPrefix(dev: BlockDevice, j: Job, cs: seq<Chunk>)
    requires j.part.blksz > 0
    reads dev
  {
    var o, plan := Run(j, cs, 0, START), Plan(j, cs, |cs|);
    var n := Accepted(o);
    && n <= |plan| && dev.trace == o.s.requests
    && Flat(plan, n) <= Expand(j.h, cs, |cs|) && Count(plan, n) <= j.part.size
    && |Flat(plan, n)| == Count(plan, n) * j.part.blksz
    && forall b: nat :: dev.Untouched(n, b) ==>
         dev.blocks(b) == Placed(dev.origin, j.part, Flat(plan, n), Count(plan, n), b)
  }

  lemma {:induction false} RunShowsPrefix(dev: BlockDevice, j: Job, cs: seq<Chunk>)
    requires Ready(j) && Sized(j.h, cs) && OnDisk(j.part) && Roomy(j.part) && |cs| < TWO32 && dev.size == j.part.blksz
    requires var o := Run(j, cs, 0, START); dev.trace == o.s.requests && dev.Reflects(Accepted(o))
    ensures ShowsPrefix(dev, j, cs)
  {
    var o, plan := Run(j, cs, 0, START), Plan(j, cs, |cs|);
    DiskAfterRun(j, cs, dev.origin, 0);
    forall b: nat | dev.Untouched(Accepted(o), b)
      ensures dev.blocks(b) == Placed(dev.origin, j.part, Flat(plan, Accepted(o)), Count(plan, Accepted(o)), b)
    {
      DiskAfterRun(j, cs, dev.origin, b);
    }
  }

  /** Whatever the bytes of the image are and whatever the driver does: no block outside a roomy partition changes,
      and inside it lies a prefix of the image's expansion, except perhaps where a request failed. */
  method FlashSparse(dev: BlockDevice, reply: Reply, part: Partition, alloc: nat -> bool, m: Memory)
    returns (trapped: bool)
    requires Sane(part) && OnDisk(part) && Roomy(part) && dev.size == part.blksz && dev.trace == [] && dev.Reflects(0)
    requires reply.Valid() && reply.log == []
    modifies dev, reply
    ensures forall b: nat :: b < part.start || part.start + part.size <= b ==> dev.blocks(b) == dev.origin(b)
    ensures var h := HeaderAt(m);
            var j, cs := Job(h, part, Faults(alloc, dev.answer)), Decode(m, h);
            && (h.blkSz % part.blksz != 0 ==> dev.blocks == old(dev.blocks))
            && (h.blkSz % part.blksz == 0 ==> ShowsPrefix(dev, j, cs))
            && (!trapped ==> (reply.status == OKAY <==> h.blkSz % part.blksz == 0 && PassesAll(j, cs, |cs|)))
    ensures var h, was, now := HeaderAt(m), old(reply.messages), reply.messages;
            var j, cs := Job(h, part, Faults(alloc, dev.answer)), Decode(m, h);
            && (h.blkSz % part.blksz != 0 ==> !trapped && now == was + [Said(BlockSize)])
            && (h.blkSz % part.blksz == 0 && !trapped ==> was <= now && Reports(j, cs, now[|was|..]))
  {
    var bytes;
    ghost var live;
    assert forall b: nat :: dev.Untouched(0, b);
    assert reply.messages == reply.opening;
    bytes, trapped, live := WriteSparseImage(dev, reply, part, alloc, m);
    ghost var h := HeaderAt(m);
    ghost var j, cs := Job(h, part, Faults(alloc, dev.answer)), Decode(m, h);
    if h.blkSz % part.blksz == 0 {
      DecodeSized(m, h);
      RunShowsPrefix(dev, j, cs);
      OutsideUnchanged(dev, j, cs);
      if !trapped {
        RunIsTold(j, cs, reply.first, reply.opening, reply.status, reply.messages);
      }
    }
  }

  lemma {:induction false} RunIsTold(j: Job, cs: seq<Chunk>, first: Status, was: seq<Text>, status: Status,
                                     now: seq<Text>)
    requires j.part.blksz > 0 && !Run(j, cs, 0, START).end.Trapped?
    requires var log := Responses(j.h, Run(j, cs, 0, START));
             status == LastStatus(first, log) && now == was + Failures(log)
    ensures status == OKAY <==> PassesAll(j, cs, |cs|)
    ensures was <= now && Reports(j, cs, now[|was|..])
  {
    HostStatus(j, cs, first);
    assert now[|was|..] == Failures(Responses(j.h, Run(j, cs, 0, START)));
  }

  lemma {:induction false} OutsideUnchanged(dev: BlockDevice, j: Job, cs: seq<Chunk>)
    requires Ready(j) && Sized(j.h, cs) && OnDisk(j.part) && Roomy(j.part) && |cs| < TWO32
    requires var o := Run(j, cs, 0, START); dev.trace == o.s.requests && dev.Reflects(Accepted(o))
    ensures forall b: nat :: b < j.part.start || j.part.start + j.part.size <= b ==> dev.blocks(b) == dev.origin(b)
  {
    Containment(j, cs);
    forall b: nat | b < j.part.start || j.part.start + j.part.size <= b ensures dev.blocks(b) == dev.origin(b) {
      OutsideUntouched(dev, j.part, Accepted(Run(j, cs, 0, START)), b);
    }
  }

  lemma {:induction false} OutsideUntouched(dev: BlockDevice, part: Partition, n: nat, b: nat)
    requires dev.Reflects(n) && Contained(part, dev.trace) && (b < part.start || part.start + part.size <= b)
    ensures dev.blocks(b) == dev.origin(b)
  {
    forall i | 0 <= i < |dev.trace| ensures !Covers(dev.trace[i], b) {
      assert Inside(part, dev.trace[i]);
    }
    ContentUncovered(dev.origin, dev.size, dev.trace, n, b);
    assert dev.Untouched(n, b);
  }

  lemma {:induction false} ContentUncovered(disk: nat -> Block, size: nat, reqs: seq<Request>, n: nat, b: nat)
    requires n <= |reqs| && AllWhole(size, reqs) && forall i :: 0 <= i < |reqs| ==> !Covers(reqs[i], b)
    ensures Content(disk, size, reqs, n, b) == disk(b)
  {
    if n > 0 { ContentUncovered(disk, size, reqs, n - 1, b); }
  }

  /** Flashing a printed, conforming image that fits, without faults: afterwards the disk is the one before with the
      image's bytes at the start of the partition, and the host is told OKAY, followed by what the buffer held before
      and by a failure message if the block count is wrong. */
  method FlashPrinted(dev: BlockDevice, reply: Reply, part: Partition, alloc: nat -> bool, m: Memory,
                      ghost h: Header, ghost cs: seq<Chunk>)
    requires Sane(part) && OnDisk(part) && dev.size == part.blksz && dev.trace == [] && dev.Reflects(0)
    requires reply.Valid() && reply.log == []
    requires Printable(h, cs) && Holds(m, 0, Encode(h, cs)) && Conforming(h, cs) && h.blkSz % part.blksz == 0
    requires var j := Job(h, part, Faults(alloc, dev.answer)); NoFaults(j, cs) && Extent(j, cs, |cs|) <= part.size
    modifies dev, reply
    ensures var j := Job(h, part, Faults(alloc, dev.answer));
            && |Expand(h, cs, |cs|)| == Extent(j, cs, |cs|) * part.blksz
            && forall b: nat :: dev.blocks(b) == Placed(dev.origin, part, Expand(h, cs, |cs|), Extent(j, cs, |cs|), b)
    ensures reply.status == OKAY && reply.messages == old(reply.messages) + Verdict(h, cs)
  {
    ghost var j := Job(h, part, Faults(alloc, dev.answer));
    PrintedReport(m, j, cs, reply.first);
    assert reply.messages == reply.opening;
    var bytes, trapped;
    ghost var live;
    bytes, trapped, live := WriteSparseImage(dev, reply, part, alloc, m);
    PrintedShown(dev, m, j, cs);
  }

  lemma {:induction false} PrintedReport(m: Memory, j: Job, cs: seq<Chunk>, first: Status)
    requires Ready(j) && OnDisk(j.part) && Printable(j.h, cs) && Holds(m, 0, Encode(j.h, cs)) && Conforming(j.h, cs)
    requires NoFaults(j, cs) && Extent(j, cs, |cs|) <= j.part.size
    ensures HeaderAt(m) == j.h && Decode(m, j.h) == cs
    ensures var o := Run(j, cs, 0, START);
            && Accepted(o) == |o.s.requests| && LastStatus(first, Responses(j.h, o)) == OKAY
            && Failures(Responses(j.h, o)) == Verdict(j.h, cs)
  {
    RoundTrip(m, j.h, cs);
    ConformingPasses(j, cs);
    FinishesExactly(j, cs);
    HostStatus(j, cs, first);
  }

  lemma {:induction false} PrintedShown(dev: BlockDevice, m: Memory, j: Job, cs: seq<Chunk>)
    requires Ready(j) && OnDisk(j.part) && Printable(j.h, cs) && Holds(m, 0, Encode(j.h, cs)) && Conforming(j.h, cs)
    requires NoFaults(j, cs) && Extent(j, cs, |cs|) <= j.part.size
    requires dev.size == j.part.blksz && dev.Reflects(|dev.trace|) && dev.trace == Run(j, cs, 0, START).s.requests
    ensures |Expand(j.h, cs, |cs|)| == Extent(j, cs, |cs|) * j.part.blksz
    ensures forall b: nat :: dev.blocks(b) == Placed(dev.origin, j.part, Expand(j.h, cs, |cs|), Extent(j, cs, |cs|), b)
  {
    FlashesImage(m, j, cs, dev.origin, 0);
    forall b: nat
      ensures dev.blocks(b) == Placed(dev.origin, j.part, Expand(j.h, cs, |cs|), Extent(j, cs, |cs|), b)
    {
      FlashesImage(m, j, cs, dev.origin, b);
      assert dev.Untouched(|dev.trace|, b);
    }
  }

  // ---------------------------------------------------------------- what is reported and left behind

  lemma {:induction false} ReplyText(h: Header, o: Outcome, first: Status)
    ensures Responses(h, o) == [] <==> o.end.Trapped?
    ensures Responses(h, o) != [] ==> (LastStatus(first, Responses(h, o)) == OKAY <==> o.end.Finished?)
    ensures o.end.Halted? ==> Failures(Responses(h, o)) == [Said(o.end.failure)]
    ensures o.end.Finished? ==> Failures(Responses(h, o)) == if o.s.total == h.totalBlks then [] else [Said(Miscount)]
  {
    var log := Responses(h, o);
    if o.end.Finished? && o.s.total != h.totalBlks {
      assert log[..1] == [Fail(Miscount)] && log[..1][..0] == [];
      assert Failures(log[..1]) == [Said(Miscount)];
    } else if log != [] {
      assert log[..0] == [];
    }
  }

  /** If anything is reported at all, the host is told OKAY exactly when every chunk passes, even if the block count is
      then found wrong; what the writer appends is the verdict on the count, or the failure of the first chunk that
      does not pass. */
  lemma {:induction false} HostStatus(j: Job, cs: seq<Chunk>, first: Status)
    requires j.part.blksz > 0
    ensures var o := Run(j, cs, 0, START);
            var log := Responses(j.h, o);
            && (log == [] <==> o.end.Trapped?)
            && (log != [] ==> (LastStatus(first, log) == OKAY <==> PassesAll(j, cs, |cs|)))
            && (log != [] ==> Reports(j, cs, Failures(log)))
  {
    FinishesExactly(j, cs);
    RunShape(j, cs);
    var o := Run(j, cs, 0, START);
    ReplyText(j.h, o, first);
    if o.end.Halted? { GivenUpExactly(j, cs, o.end.k, o.end.failure); }
  }

  /** After chunks that passed, a fill chunk comes up that the partition has no room for. */
  ghost predicate MeetsTooBigFill(j: Job, cs: seq<Chunk>, k: nat)
    requires j.part.blksz > 0 && k < |cs|
  {
    PassesAll(j, cs, k) && cs[k].kind == FILL && Refusal(j, k, Extent(j, cs, k), cs[k]) == Some(TooBig)
  }

  /** A fill buffer is left allocated exactly when the run meets a fill chunk that has no room, or one it divides by
      zero at. */
  lemma {:induction false} LeaksExactly(j: Job, cs: seq<Chunk>)
    requires j.part.blksz > 0
    ensures Leaked(cs, Run(j, cs, 0, START).end) <= 1
    ensures Leaked(cs, Run(j, cs, 0, START).end) == 1 <==>
            exists k :: 0 <= k < |cs| && (MeetsTooBigFill(j, cs, k) || MeetsZeroFill(j, cs, k))
  {
    RunShape(j, cs);
    TrapsExactly(j, cs);
    var o := Run(j, cs, 0, START);
    if o.end.Halted? && Leaked(cs, o.end) == 1 {
      assert MeetsTooBigFill(j, cs, o.end.k);
    }
    if exists k :: 0 <= k < |cs| && MeetsTooBigFill(j, cs, k) {
      var k :| 0 <= k < |cs| && MeetsTooBigFill(j, cs, k);
      EndsAtRefusal(j, cs, k);
    }
  }

  /** A CRC32 chunk as the format defines it, with its four bytes of checksum, is always refused. */
  lemma {:induction false} FormatCrcIsRefused(j: Job, cs: seq<Chunk>, k: nat)
    requires j.part.blksz > 0 && k < |cs| && PassesAll(j, cs, k)
    requires cs[k].kind == CRC32 && cs[k].total == j.h.chunkHdrSz + 4
    ensures Run(j, cs, 0, START).end == Halted(k, BogusCrc)
  {
    EndsAtRefusal(j, cs, k);
  }
}
