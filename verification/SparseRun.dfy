/** What `write_sparse_image` does with a decoded chunk list: the block requests it issues, where
    it stops and what it has counted by then. */
module SparseRun {
  import opened Words
  import opened Wrappers
  import opened SparseFormat

  /** `bits` is the width of `lbaint_t` and of `unsigned long`. */
  datatype Partition = Partition(start: nat, size: nat, blksz: nat, bits: nat)

  ghost predicate Sane(part: Partition) {
    && 32 <= part.bits
    && IsPow2(part.blksz) && 4 <= part.blksz <= 0x8000_0000
    && part.start < Pow2(part.bits) && part.size < Pow2(part.bits)
  }

  /** The partition lies on a disk whose number of blocks is itself a block count. */
  predicate OnDisk(part: Partition) {
    part.start + part.size < Pow2(part.bits)
  }

  datatype Request = Request(blk: nat, cnt: nat, data: seq<byte>)

  datatype Failure =
    | BlockSize | BogusRaw | BogusFill | BogusCrc | TooBig | WriteFailed | NoMemory | UnknownType | Miscount

  /** The world outside: whether `memalign` succeeds at chunk k, and what the n-th `block_write` returns. */
  datatype Faults = Faults(alloc: nat -> bool, answer: nat -> nat)

  datatype Job = Job(h: Header, part: Partition, faults: Faults)

  /** The block size check has been passed. */
  ghost predicate Ready(j: Job) {
    Sane(j.part) && j.h.blkSz % j.part.blksz == 0
  }

  /** Reduction modulo `span`, by repeated subtraction. */
  function Wrap(x: nat, span: nat): (r: nat)
    requires span > 0
    ensures r < span
  {
    if x < span then x else Wrap(x - span, span)
  }

  lemma {:induction false} WrapIsMod(x: nat, span: nat)
    requires span > 0
    ensures Wrap(x, span) == x % span
  {
    if x >= span {
      WrapIsMod(x - span, span);
      DivModUnique(x, span, (x - span) / span + 1, (x - span) % span);
    }
  }

  /** Block address in `lbaint_t`, `off` blocks after the start of the partition. */
  function Lba(part: Partition, off: nat): nat {
    Wrap(part.start + off, Pow2(part.bits))
  }

  predicate Exceeds(part: Partition, off: nat, n: nat) {
    Wrap(Lba(part, off) + n, Pow2(part.bits)) > Wrap(part.start + part.size, Pow2(part.bits))
  }

  predicate Writes(c: Chunk) {
    c.kind == RAW || c.kind == FILL
  }

  /** `blkcnt` of a chunk of `ds` bytes. */
  function BlockCount(ds: nat, blksz: nat): nat
    requires blksz > 0
  {
    ds / blksz
  }

  function ByteCount(n: nat, blksz: nat): nat {
    n * blksz
  }

  function Add32(a: u32, b: nat): u32 {
    (a + b) % TWO32
  }

  /** Device blocks written by a chunk. */
  function Blocks(j: Job, c: Chunk): nat
    requires j.part.blksz > 0
  {
    if Writes(c) then BlockCount(DataSize(j.h, c.blocks), j.part.blksz) else 0
  }

  function Repeat(word: seq<byte>, n: nat): seq<byte> {
    if n == 0 then [] else Repeat(word, n - 1) + word
  }

  function FillRequests(part: Partition, off: nat, n: nat, block: seq<byte>): (reqs: seq<Request>)
    ensures |reqs| == n
  {
    seq(n, i requires 0 <= i < n => Request(Lba(part, off + i), 1, block))
  }

  /** The requests a chunk stands for: one for a raw chunk, one a block for a fill chunk. */
  function Requests(j: Job, off: nat, c: Chunk): seq<Request>
    requires j.part.blksz > 0
  {
    if c.kind == RAW then
      [Request(Lba(j.part, off), Blocks(j, c), c.body)]
    else if c.kind == FILL then
      FillRequests(j.part, off, Blocks(j, c), Repeat(c.body, j.part.blksz / 4))
    else
      []
  }

  /** Why chunk `k` is given up before any block of it is written. */
  function Refusal(j: Job, k: nat, off: nat, c: Chunk): Option<Failure>
    requires j.part.blksz > 0
  {
    var n := Blocks(j, c);
    if c.kind == RAW then
      if c.total != (j.h.chunkHdrSz + DataSize(j.h, c.blocks)) % TWO32 then Some(BogusRaw)
      else if Exceeds(j.part, off, n) then Some(TooBig) else None
    else if c.kind == FILL then
      if c.total != j.h.chunkHdrSz + 4 then Some(BogusFill)
      else if !j.faults.alloc(k) then Some(NoMemory)
      else if Exceeds(j.part, off, n) then Some(TooBig) else None
    else if c.kind == DONT_CARE then None
    else if c.kind == CRC32 then
      if c.total != j.h.chunkHdrSz then Some(BogusCrc) else None
    else Some(UnknownType)
  }

  /** Requests `from` up to `to` are answered in full. */
  ghost predicate Answers(answer: nat -> nat, reqs: seq<Request>, from: nat, to: nat)
    requires to <= |reqs|
  {
    forall i :: from <= i < to ==> answer(i) == reqs[i].cnt
  }

  /** The first request from the i-th on that is not answered in full. */
  function Answered(answer: nat -> nat, reqs: seq<Request>, i: nat): (r: nat)
    requires i <= |reqs|
    ensures i <= r <= |reqs| && Answers(answer, reqs, i, r)
    ensures r < |reqs| ==> answer(r) != reqs[r].cnt
    decreases |reqs| - i
  {
    if i == |reqs| || answer(i) != reqs[i].cnt then i else Answered(answer, reqs, i + 1)
  }

  /** What a chunk adds to `total_blocks`; a fill chunk of block size 0 gets no further than the division. */
  function Counted(h: Header, c: Chunk): nat {
    if c.kind != FILL then c.blocks else if h.blkSz == 0 then 0 else DataSize(h, c.blocks) / h.blkSz
  }

  /** A chunk counts for its image blocks exactly unless it is a fill chunk whose data size wraps around. */
  lemma {:induction false} CountedExactly(h: Header, c: Chunk)
    requires h.blkSz > 0
    ensures Counted(h, c) == c.blocks <==> c.kind != FILL || h.blkSz * c.blocks < TWO32
  {
    if c.kind == FILL {
      var ds := h.blkSz * c.blocks;
      if ds < TWO32 {
        assert c.blocks * h.blkSz == ds && ds % TWO32 == ds;
        DivModUnique(ds, h.blkSz, c.blocks, 0);
      } else {
        DivTimes(ds % TWO32, h.blkSz);
        assert Counted(h, c) * h.blkSz < ds == c.blocks * h.blkSz;
      }
    }
  }

  /** `off`, `bytes` and `total` are `blk - start`, `bytes_written` and `total_blocks`. */
  datatype State = State(requests: seq<Request>, off: nat, bytes: u32, total: u32)

  datatype Step = Go(s: State) | Halt(s: State, failure: Failure) | Trap(s: State)

  /** The state after a chunk that passed. */
  function Advance(j: Job, c: Chunk, s: State): State
    requires j.part.blksz > 0
  {
    var n := Blocks(j, c);
    State(s.requests + Requests(j, s.off, c), s.off + n,
          Add32(s.bytes, ByteCount(n, j.part.blksz)), Add32(s.total, Counted(j.h, c)))
  }

  /** One turn of the chunk loop. A fill chunk of an image with block size 0 ends in a division by zero. */
  function StepChunk(j: Job, k: nat, c: Chunk, s: State): Step
    requires j.part.blksz > 0
  {
    match Refusal(j, k, s.off, c)
    case Some(f) => Halt(s, f)
    case None =>
      var reqs := s.requests + Requests(j, s.off, c);
      var a := Answered(j.faults.answer, reqs, |s.requests|);
      if a < |reqs| then
        Halt(s.(requests := reqs[..a + 1]), WriteFailed)
      else if c.kind == FILL && j.h.blkSz == 0 then
        Trap(s.(requests := reqs))
      else
        Go(Advance(j, c, s))
  }

  datatype End = Finished | Halted(k: nat, failure: Failure) | Trapped(k: nat)

  datatype Outcome = Outcome(s: State, end: End)

  function Run(j: Job, cs: seq<Chunk>, k: nat, s: State): Outcome
    requires j.part.blksz > 0 && k <= |cs|
    decreases |cs| - k
  {
    if k == |cs| then Outcome(s, Finished)
    else match StepChunk(j, k, cs[k], s)
      case Go(s') => Run(j, cs, k + 1, s')
      case Halt(s', f) => Outcome(s', Halted(k, f))
      case Trap(s') => Outcome(s', Trapped(k))
  }

  const START := State([], 0, 0, 0)

  // ---------------------------------------------------------------- the run in closed form

  /** Blocks written by the first `k` chunks. */
  function Extent(j: Job, cs: seq<Chunk>, k: nat): nat
    requires j.part.blksz > 0 && k <= |cs|
  {
    if k == 0 then 0 else Extent(j, cs, k - 1) + Blocks(j, cs[k - 1])
  }

  /** Every request the first `k` chunks stand for, in order. */
  function Plan(j: Job, cs: seq<Chunk>, k: nat): seq<Request>
    requires j.part.blksz > 0 && k <= |cs|
  {
    if k == 0 then [] else Plan(j, cs, k - 1) + Requests(j, Extent(j, cs, k - 1), cs[k - 1])
  }

  predicate Divides(h: Header, c: Chunk) {
    c.kind == FILL ==> h.blkSz > 0
  }

  /** Image blocks the first `k` chunks count for. */
  function Tally(h: Header, cs: seq<Chunk>, k: nat): nat
    requires k <= |cs|
  {
    if k == 0 then 0 else Tally(h, cs, k - 1) + Counted(h, cs[k - 1])
  }

  /** Chunk `k` is neither refused nor fails, once all chunks before it have passed. */
  ghost predicate Passes(j: Job, cs: seq<Chunk>, k: nat)
    requires j.part.blksz > 0 && k < |cs|
  {
    && Refusal(j, k, Extent(j, cs, k), cs[k]).None?
    && Answers(j.faults.answer, Plan(j, cs, k + 1), |Plan(j, cs, k)|, |Plan(j, cs, k + 1)|)
    && Divides(j.h, cs[k])
  }

  ghost predicate PassesAll(j: Job, cs: seq<Chunk>, k: nat)
    requires j.part.blksz > 0 && k <= |cs|
  {
    k == 0 || (PassesAll(j, cs, k - 1) && Passes(j, cs, k - 1))
  }

  /** The loop's variables after `k` chunks that passed. */
  function StateAt(j: Job, cs: seq<Chunk>, k: nat): State
    requires j.part.blksz > 0 && k <= |cs|
  {
    State(Plan(j, cs, k), Extent(j, cs, k), Extent(j, cs, k) * j.part.blksz % TWO32,
          Tally(j.h, cs, k) % TWO32)
  }

  lemma {:induction false} AddMod(a: nat, b: nat)
    ensures (a % TWO32 + b) % TWO32 == (a + b) % TWO32
  {
  }

  lemma {:induction false} StepPasses(j: Job, cs: seq<Chunk>, k: nat)
    requires j.part.blksz > 0 && k < |cs|
    ensures Passes(j, cs, k) <==> StepChunk(j, k, cs[k], StateAt(j, cs, k)).Go?
  {
    var a := Answered(j.faults.answer, Plan(j, cs, k + 1), |Plan(j, cs, k)|);
  }

  lemma {:induction false} BytesStep(off: nat, n: nat, size: nat)
    ensures (off * size % TWO32 + n * size) % TWO32 == (off + n) * size % TWO32
  {
    assert (off + n) * size == off * size + n * size;
    AddMod(off * size, n * size);
  }

  lemma {:induction false} AdvanceAt(j: Job, cs: seq<Chunk>, k: nat)
    requires j.part.blksz > 0 && k < |cs|
    ensures Advance(j, cs[k], StateAt(j, cs, k)) == StateAt(j, cs, k + 1)
  {
    BytesStep(Extent(j, cs, k), Blocks(j, cs[k]), j.part.blksz);
    AddMod(Tally(j.h, cs, k), Counted(j.h, cs[k]));
  }

  lemma {:induction false} StepGoes(j: Job, cs: seq<Chunk>, k: nat)
    requires j.part.blksz > 0 && k < |cs| && Passes(j, cs, k)
    ensures StepChunk(j, k, cs[k], StateAt(j, cs, k)) == Go(Advance(j, cs[k], StateAt(j, cs, k)))
  {
    StepPasses(j, cs, k);
  }

  lemma {:induction false} StepAfter(j: Job, cs: seq<Chunk>, k: nat)
    requires j.part.blksz > 0 && k < |cs| && Passes(j, cs, k)
    ensures StepChunk(j, k, cs[k], StateAt(j, cs, k)) == Go(StateAt(j, cs, k + 1))
  {
    StepGoes(j, cs, k);
    AdvanceAt(j, cs, k);
  }

  /** Chunk `q` was given up for reason `f`: refused as a whole, or left at the first of its requests
      that was not answered in full. */
  ghost predicate HaltsAt(j: Job, cs: seq<Chunk>, q: nat, s: State, f: Failure)
    requires j.part.blksz > 0 && q < |cs|
  {
    var before, reqs := |Plan(j, cs, q)|, Plan(j, cs, q + 1);
    && s.off == Extent(j, cs, q)
    && match Refusal(j, q, s.off, cs[q])
       case Some(g) => f == g && f != WriteFailed && s.requests == Plan(j, cs, q)
       case None =>
         && f == WriteFailed && before < |s.requests| <= |reqs| && s.requests == reqs[..|s.requests|]
         && Answers(j.faults.answer, reqs, before, |s.requests| - 1)
         && j.faults.answer(|s.requests| - 1) != reqs[|s.requests| - 1].cnt
  }

  /** A fill chunk of an image with block size 0 writes nothing and does not come back. */
  ghost predicate TrapsAt(j: Job, cs: seq<Chunk>, q: nat, s: State)
    requires j.part.blksz > 0 && q < |cs|
  {
    && cs[q].kind == FILL && j.h.blkSz == 0
    && Refusal(j, q, s.off, cs[q]).None?
    && s.off == Extent(j, cs, q) && s.requests == Plan(j, cs, q) == Plan(j, cs, q + 1)
  }

  /** A run ends at the first chunk that does not pass, or after the last; all it has done by then
      is what the chunks before, each in full, stand for. */
  ghost predicate RunsTo(j: Job, cs: seq<Chunk>, o: Outcome)
    requires j.part.blksz > 0
  {
    match o.end
    case Finished => PassesAll(j, cs, |cs|) && o.s == StateAt(j, cs, |cs|)
    case Halted(q, f) => q < |cs| && PassesAll(j, cs, q) && HaltsAt(j, cs, q, o.s, f)
    case Trapped(q) => q < |cs| && PassesAll(j, cs, q) && TrapsAt(j, cs, q, o.s)
  }

  lemma {:induction false} StepHalts(j: Job, cs: seq<Chunk>, k: nat)
    requires j.part.blksz > 0 && k < |cs| && StepChunk(j, k, cs[k], StateAt(j, cs, k)).Halt?
    ensures var t := StepChunk(j, k, cs[k], StateAt(j, cs, k)); HaltsAt(j, cs, k, t.s, t.failure)
  {
    var a := Answered(j.faults.answer, Plan(j, cs, k + 1), |Plan(j, cs, k)|);
  }

  lemma {:induction false} StepTraps(j: Job, cs: seq<Chunk>, k: nat)
    requires j.part.blksz > 0 && k < |cs| && StepChunk(j, k, cs[k], StateAt(j, cs, k)).Trap?
    ensures TrapsAt(j, cs, k, StepChunk(j, k, cs[k], StateAt(j, cs, k)).s)
  {
    NothingToFill(j, Extent(j, cs, k), cs[k]);
    assert Plan(j, cs, k) + [] == Plan(j, cs, k);
  }

  lemma {:induction false} NothingToFill(j: Job, off: nat, c: Chunk)
    requires j.part.blksz > 0 && c.kind == FILL && j.h.blkSz == 0
    ensures Requests(j, off, c) == []
  {
    assert DataSize(j.h, c.blocks) == 0;
  }

  lemma {:induction false} RunHalts(j: Job, cs: seq<Chunk>, k: nat)
    requires j.part.blksz > 0 && k < |cs| && PassesAll(j, cs, k)
    requires StepChunk(j, k, cs[k], StateAt(j, cs, k)).Halt?
    ensures RunsTo(j, cs, Run(j, cs, k, StateAt(j, cs, k)))
  {
    StepHalts(j, cs, k);
  }

  lemma {:induction false} RunTraps(j: Job, cs: seq<Chunk>, k: nat)
    requires j.part.blksz > 0 && k < |cs| && PassesAll(j, cs, k)
    requires StepChunk(j, k, cs[k], StateAt(j, cs, k)).Trap?
    ensures RunsTo(j, cs, Run(j, cs, k, StateAt(j, cs, k)))
  {
    StepTraps(j, cs, k);
  }

  lemma {:induction false} RunStops(j: Job, cs: seq<Chunk>, k: nat)
    requires j.part.blksz > 0 && k < |cs| && PassesAll(j, cs, k) && !Passes(j, cs, k)
    ensures RunsTo(j, cs, Run(j, cs, k, StateAt(j, cs, k)))
  {
    StepPasses(j, cs, k);
    if StepChunk(j, k, cs[k], StateAt(j, cs, k)).Halt? {
      RunHalts(j, cs, k);
    } else {
      RunTraps(j, cs, k);
    }
  }

  lemma {:induction false} RunGoes(j: Job, cs: seq<Chunk>, k: nat)
    requires j.part.blksz > 0 && k < |cs| && Passes(j, cs, k)
    ensures Run(j, cs, k, StateAt(j, cs, k)) == Run(j, cs, k + 1, StateAt(j, cs, k + 1))
  {
    StepAfter(j, cs, k);
  }

  lemma {:induction false} RunReaches(j: Job, cs: seq<Chunk>, k: nat)
    requires j.part.blksz > 0 && k <= |cs| && PassesAll(j, cs, k)
    ensures Run(j, cs, 0, START) == Run(j, cs, k, StateAt(j, cs, k))
  {
    if k == 0 {
      StartsAtStart(j, cs);
    } else {
      RunReaches(j, cs, k - 1);
      RunGoes(j, cs, k - 1);
    }
  }

  /** The first chunk that does not pass, or the number of chunks. */
  lemma {:induction false} FirstStop(j: Job, cs: seq<Chunk>, k: nat) returns (q: nat)
    requires j.part.blksz > 0 && k <= |cs| && PassesAll(j, cs, k)
    ensures q <= |cs| && PassesAll(j, cs, q) && (q < |cs| ==> !Passes(j, cs, q))
    decreases |cs| - k
  {
    if k < |cs| && Passes(j, cs, k) {
      PassesNext(j, cs, k);
      q := FirstStop(j, cs, k + 1);
    } else {
      q := k;
    }
  }

  lemma {:induction false} PassesNext(j: Job, cs: seq<Chunk>, k: nat)
    requires j.part.blksz > 0 && k < |cs| && PassesAll(j, cs, k) && Passes(j, cs, k)
    ensures PassesAll(j, cs, k + 1)
  {
  }

  lemma {:induction false} PassesEach(j: Job, cs: seq<Chunk>, n: nat, k: nat)
    requires j.part.blksz > 0 && k < n <= |cs| && PassesAll(j, cs, n)
    ensures Passes(j, cs, k)
  {
    assert PassesAll(j, cs, n - 1) && Passes(j, cs, n - 1);
    if k < n - 1 { PassesEach(j, cs, n - 1, k); }
  }

  lemma {:induction false} HaltsIsNotPass(j: Job, cs: seq<Chunk>, q: nat, s: State, f: Failure)
    requires j.part.blksz > 0 && q < |cs| && HaltsAt(j, cs, q, s, f)
    ensures !Passes(j, cs, q)
  {
  }

  lemma {:induction false} StartsAtStart(j: Job, cs: seq<Chunk>)
    requires j.part.blksz > 0
    ensures StateAt(j, cs, 0) == START
  {
  }

  lemma {:induction false} RunShape(j: Job, cs: seq<Chunk>)
    requires j.part.blksz > 0
    ensures RunsTo(j, cs, Run(j, cs, 0, START))
  {
    var q := FirstStop(j, cs, 0);
    RunReaches(j, cs, q);
    if q < |cs| {
      RunStops(j, cs, q);
    } else {
      RunEnds(j, cs);
    }
  }

  lemma {:induction false} RunEnds(j: Job, cs: seq<Chunk>)
    requires j.part.blksz > 0 && PassesAll(j, cs, |cs|)
    ensures RunsTo(j, cs, Run(j, cs, |cs|, StateAt(j, cs, |cs|)))
  {
  }

  /** All chunks are consumed exactly when every one of them passes. */
  lemma {:induction false} FinishesExactly(j: Job, cs: seq<Chunk>)
    requires j.part.blksz > 0
    ensures Run(j, cs, 0, START).end.Finished? <==> PassesAll(j, cs, |cs|)
  {
    RunShape(j, cs);
    var o := Run(j, cs, 0, START);
    if !o.end.Finished? && PassesAll(j, cs, |cs|) {
      PassesEach(j, cs, |cs|, o.end.k);
      if o.end.Halted? { HaltsIsNotPass(j, cs, o.end.k, o.s, o.end.failure); }
    }
  }

  /** A run stops at the first chunk that does not pass. */
  lemma {:induction false} StopsAt(j: Job, cs: seq<Chunk>, k: nat)
    requires j.part.blksz > 0 && k < |cs| && PassesAll(j, cs, k) && !Passes(j, cs, k)
    ensures !Run(j, cs, 0, START).end.Finished? && Run(j, cs, 0, START).end.k == k
  {
    RunShape(j, cs);
    var o := Run(j, cs, 0, START);
    var q := if o.end.Finished? then |cs| else o.end.k;
    if q > k {
      PassesEach(j, cs, q, k);
      assert false;
    } else if q < k {
      PassesEach(j, cs, k, q);
      assert false;
    }
  }

  /** A run ends at the first chunk that is refused, with that chunk's failure. */
  lemma {:induction false} EndsAtRefusal(j: Job, cs: seq<Chunk>, k: nat)
    requires j.part.blksz > 0 && k < |cs| && PassesAll(j, cs, k)
    requires Refusal(j, k, Extent(j, cs, k), cs[k]).Some?
    ensures Run(j, cs, 0, START).end == Halted(k, Refusal(j, k, Extent(j, cs, k), cs[k]).value)
  {
    StopsAt(j, cs, k);
    RunShape(j, cs);
  }

  /** A fill chunk comes up in an image with block size 0, after chunks that passed, and is not refused. */
  ghost predicate MeetsZeroFill(j: Job, cs: seq<Chunk>, k: nat)
    requires j.part.blksz > 0 && k < |cs|
  {
    PassesAll(j, cs, k) && cs[k].kind == FILL && j.h.blkSz == 0 && Refusal(j, k, Extent(j, cs, k), cs[k]).None?
  }

  lemma {:induction false} ZeroFillTraps(j: Job, cs: seq<Chunk>, k: nat)
    requires j.part.blksz > 0 && k < |cs| && MeetsZeroFill(j, cs, k)
    ensures Run(j, cs, 0, START).end == Trapped(k)
  {
    StopsAt(j, cs, k);
    RunShape(j, cs);
    NothingToFill(j, Extent(j, cs, k), cs[k]);
  }

  /** A run ends in the division by zero exactly when it meets such a chunk. */
  lemma {:induction false} TrapsExactly(j: Job, cs: seq<Chunk>)
    requires j.part.blksz > 0
    ensures Run(j, cs, 0, START).end.Trapped? <==> exists k :: 0 <= k < |cs| && MeetsZeroFill(j, cs, k)
  {
    RunShape(j, cs);
    var o := Run(j, cs, 0, START);
    if o.end.Trapped? {
      assert MeetsZeroFill(j, cs, o.end.k);
    }
    if exists k :: 0 <= k < |cs| && MeetsZeroFill(j, cs, k) {
      var k :| 0 <= k < |cs| && MeetsZeroFill(j, cs, k);
      ZeroFillTraps(j, cs, k);
    }
  }
}
