/** `write_sparse_image` itself: one pass over the image bytes, writing to a block device as it goes. */
module SparseWriter {
  import opened Words
  import opened Wrappers
  import opened SparseFormat
  import opened SparseRun
  import opened SparseDisk

  /** A block device whose driver may fail. `answer(i)` is what the i-th call returns; a call that does
      not return its count leaves `damage(i, b)` in the blocks of its own range. */
  class BlockDevice {
    const size: nat
    const answer: nat -> nat
    const damage: (nat, nat) -> Block
    var blocks: nat -> Block
    var calls: nat
    ghost const origin: nat -> Block
    ghost var trace: seq<Request>

    constructor (size: nat, answer: nat -> nat, damage: (nat, nat) -> Block, blocks: nat -> Block)
      ensures this.size == size && this.answer == answer && this.damage == damage && this.blocks == blocks
      ensures origin == blocks && trace == [] && Reflects(0)
    {
      this.size, this.answer, this.damage, this.blocks := size, answer, damage, blocks;
      calls, origin, trace := 0, blocks, [];
    }

    /** Outside the ranges of later requests, the contents are those the first `n` requests leave. */
    ghost predicate Reflects(n: nat)
      reads this
    {
      && calls == |trace| && n <= |trace| && AllWhole(size, trace)
      && forall b: nat :: Untouched(n, b) ==> blocks(b) == Content(origin, size, trace, n, b)
    }

    ghost predicate Untouched(n: nat, b: nat)
      reads this
    {
      forall i :: n <= i < |trace| ==> !Covers(trace[i], b)
    }

    method BlockWrite(blk: nat, cnt: nat, data: seq<byte>) returns (n: nat)
      requires Reflects(|trace|) && |data| == cnt * size
      modifies this
      ensures trace == old(trace) + [Request(blk, cnt, data)]
      ensures n == answer(|old(trace)|)
      ensures Reflects(if n == cnt then |trace| else |trace| - 1)
    {
      var was, size, damage, call := blocks, size, damage, calls;
      n := answer(call);
      var done := n == cnt;
      blocks := (b: nat) =>
        if blk <= b < blk + cnt
        then if done then Piece(data, size, b - blk, cnt) else damage(call, b)
        else was(b);
      ghost var before, r := trace, Request(blk, cnt, data);
      calls, trace := calls + 1, trace + [r];
      forall i | 0 <= i < |trace| ensures Whole(size, trace[i]) {
        if i < |before| { assert Whole(size, before[i]); }
      }
      forall b: nat | Covers(r, b) ==> done
        ensures blocks(b) == Content(origin, size, trace, if done then |trace| else |trace| - 1, b)
      {
        assert old(Untouched(|trace|, b));
        ContentSame(origin, size, before, trace, |before|, b);
      }
      assert trace[|before|] == r;
    }
  }

  // ---------------------------------------------------------------- the reply to the host

  datatype Response = Fail(failure: Failure) | Okay

  datatype Status = OKAY | FAIL

  /** A piece of the reply text: what a response said, or what was in the buffer before. */
  datatype Text = Said(failure: Failure) | Earlier(text: string)

  /** The reply buffer as the host reads it: a response overwrites the first four characters, and what
      it has to say is appended to what is already there. */
  class Reply {
    var status: Status
    var messages: seq<Text>
    ghost const first: Status
    ghost const opening: seq<Text>
    ghost var log: seq<Response>

    constructor (status: Status, messages: seq<Text>)
      ensures Valid() && log == [] && this.status == first == status && this.messages == opening == messages
    {
      this.status, this.messages, log := status, messages, [];
      first, opening := status, messages;
    }

    ghost predicate Valid()
      reads this
    {
      status == LastStatus(first, log) && messages == opening + Failures(log)
    }

    method Fail(f: Failure)
      requires Valid()
      modifies this
      ensures Valid() && log == old(log) + [Response.Fail(f)]
      ensures status == FAIL && messages == old(messages) + [Said(f)]
    {
      status, messages := FAIL, messages + [Said(f)];
      log := log + [Response.Fail(f)];
    }

    method Okay()
      requires Valid()
      modifies this
      ensures Valid() && log == old(log) + [Response.Okay]
      ensures status == OKAY && messages == old(messages)
    {
      status := OKAY;
      log := log + [Response.Okay];
    }
  }

  /** The first four characters, which were `first` before the responses. */
  function LastStatus(first: Status, log: seq<Response>): Status {
    if log == [] then first else if log[|log| - 1].Fail? then FAIL else OKAY
  }

  /** What the responses append. */
  function Failures(log: seq<Response>): seq<Text> {
    if log == [] then []
    else
      var r := log[|log| - 1];
      Failures(log[..|log| - 1]) + if r.Fail? then [Said(r.failure)] else []
  }

  // ---------------------------------------------------------------- one chunk

  /** The writer's variables stand at state `s`, and the device has carried out all its requests. */
  ghost predicate At(dev: BlockDevice, part: Partition, blk: nat, bytes: u32, total: u32, s: State)
    reads dev
  {
    && dev.trace == s.requests && dev.Reflects(|dev.trace|) && dev.size == part.blksz
    && blk == Lba(part, s.off) && bytes == s.bytes && total == s.total
  }

  /** How much of the trace the device's contents show after a chunk ended this way. */
  ghost function Shown(t: Step): nat {
    if t.Halt? && t.failure == WriteFailed && t.s.requests != [] then |t.s.requests| - 1 else |t.s.requests|
  }

  lemma {:induction false} WrapAdd(x: nat, n: nat, span: nat)
    requires span > 0
    ensures Wrap(Wrap(x, span) + n, span) == Wrap(x + n, span)
  {
    if x >= span { WrapAdd(x - span, n, span); }
  }

  lemma {:induction false} AnsweredIs(answer: nat -> nat, reqs: seq<Request>, i: nat, a: nat)
    requires i <= a <= |reqs| && Answers(answer, reqs, i, a) && (a < |reqs| ==> answer(a) != reqs[a].cnt)
    ensures Answered(answer, reqs, i) == a
  {
  }

  lemma {:induction false} RawStep(j: Job, k: nat, c: Chunk, s: State)
    requires j.part.blksz > 0 && c.kind == RAW && Refusal(j, k, s.off, c).None?
    ensures var reqs := s.requests + [Request(Lba(j.part, s.off), Blocks(j, c), c.body)];
            StepChunk(j, k, c, s) ==
            if j.faults.answer(|s.requests|) == Blocks(j, c) then Go(Advance(j, c, s))
            else Halt(s.(requests := reqs), WriteFailed)
  {
    var reqs := s.requests + Requests(j, s.off, c);
    var a := Answered(j.faults.answer, reqs, |s.requests|);
    assert reqs[|s.requests|].cnt == Blocks(j, c);
    assert a < |reqs| ==> reqs[..a + 1] == reqs;
  }

  method WriteRaw(dev: BlockDevice, h: Header, part: Partition, m: Memory, p: nat, c: Chunk,
                  blk0: nat, bytes0: u32, total0: u32, ghost j: Job, ghost k: nat, ghost s: State)
    returns (failed: Option<Failure>, blk: nat, bytes: u32, total: u32)
    requires Ready(j) && j.h == h && j.part == part && j.faults.answer == dev.answer
    requires c.kind == RAW && c.body == Bytes(m, p, DataSize(h, c.blocks))
    requires At(dev, part, blk0, bytes0, total0, s)
    modifies dev
    ensures var t := StepChunk(j, k, c, s);
            && dev.trace == t.s.requests && dev.Reflects(Shown(t))
            && match t
               case Go(s') => failed.None? && At(dev, part, blk, bytes, total, s')
               case Halt(_, f) => failed == Some(f)
               case Trap(_) => false
  {
    blk, bytes, total := blk0, bytes0, total0;
    var span, ds := Pow2(part.bits), DataSize(h, c.blocks);
    var n := BlockCount(ds, part.blksz);
    if c.total != (h.chunkHdrSz + ds) % TWO32 {
      return Some(BogusRaw), blk, bytes, total;
    }
    if Wrap(blk + n, span) > Wrap(part.start + part.size, span) {
      return Some(TooBig), blk, bytes, total;
    }
    assert ByteCount(n, part.blksz) == ds by { ExactDivision(j, c.blocks); }
    RawStep(j, k, c, s);
    var written := dev.BlockWrite(blk, n, Bytes(m, p, ByteCount(n, part.blksz)));
    if written != n {
      return Some(WriteFailed), blk, bytes, total;
    }
    assert Wrap(blk + n, span) == Lba(part, s.off + n) by { WrapAdd(part.start + s.off, n, span); }
    failed, blk := None, Wrap(blk + n, span);
    bytes, total := Add32(bytes, ByteCount(n, part.blksz)), Add32(total, c.blocks);
  }

  // ---------------------------------------------------------------- fill chunks

  const ARCH_DMA_MINALIGN := 64

  /** The size of a buffer rounded up to the alignment. */
  function RoundUp(x: nat): (r: nat)
    ensures x <= r < x + ARCH_DMA_MINALIGN && r % ARCH_DMA_MINALIGN == 0
  {
    (x + (ARCH_DMA_MINALIGN - 1)) / ARCH_DMA_MINALIGN * ARCH_DMA_MINALIGN
  }

  /** Words as they lie in memory. */
  function BytesOf(words: seq<u32>): seq<byte> {
    if words == [] then [] else BytesOf(words[..|words| - 1]) + Le32(words[|words| - 1])
  }

  lemma {:induction false} BytesOfSame(words: seq<u32>, v: u32)
    requires forall i :: 0 <= i < |words| ==> words[i] == v
    ensures BytesOf(words) == Repeat(Le32(v), |words|)
  {
    if words != [] { BytesOfSame(words[..|words| - 1], v); }
  }

  method FillBuffer(buf: array<u32>, count: nat, v: u32)
    requires count <= buf.Length
    modifies buf
    ensures BytesOf(buf[..count]) == Repeat(Le32(v), count)
  {
    for i := 0 to count
      invariant forall q :: 0 <= q < i ==> buf[q] == v
    {
      buf[i] := v;
    }
    BytesOfSame(buf[..count], v);
  }

  lemma {:induction false} FillGrows(part: Partition, off: nat, i: nat, block: seq<byte>)
    ensures FillRequests(part, off, i + 1, block)
            == FillRequests(part, off, i, block) + [Request(Lba(part, off + i), 1, block)]
  {
  }

  /** Calls `from` up to `to` each take their one block. */
  ghost predicate Taken(answer: nat -> nat, from: nat, to: nat) {
    forall i :: from <= i < to ==> answer(i) == 1
  }

  lemma {:induction false} TakenAnswers(answer: nat -> nat, before: seq<Request>, part: Partition, off: nat, n: nat,
                                        block: seq<byte>, done: nat)
    requires done <= n && Taken(answer, |before|, |before| + done)
    ensures Answers(answer, before + FillRequests(part, off, n, block), |before|, |before| + done)
  {
  }

  /** Writes `n` equal blocks, one request each, up to the first that is not taken; `done` were taken. */
  method WriteBlocks(dev: BlockDevice, part: Partition, blk0: nat, n: nat, block: seq<byte>,
                     ghost off: nat, ghost before: seq<Request>)
    returns (done: nat, blk: nat)
    requires dev.trace == before && dev.Reflects(|before|) && |block| == dev.size && blk0 == Lba(part, off)
    modifies dev
    ensures done <= n && blk == Lba(part, off + done)
    ensures dev.trace == before + FillRequests(part, off, if done < n then done + 1 else n, block)
    ensures Taken(dev.answer, |before|, |before| + done)
    ensures done < n ==> dev.answer(|before| + done) != 1
    ensures dev.Reflects(|before| + done)
  {
    blk, done := blk0, 0;
    while done < n
      invariant done <= n && blk == Lba(part, off + done)
      invariant dev.trace == before + FillRequests(part, off, done, block)
      invariant dev.Reflects(|before| + done)
      invariant Taken(dev.answer, |before|, |before| + done)
    {
      var taken, next := WriteBlock(dev, part, blk, block, off, done, before);
      if !taken {
        return;
      }
      blk, done := next, done + 1;
    }
  }

  method WriteBlock(dev: BlockDevice, part: Partition, blk: nat, block: seq<byte>,
                    ghost off: nat, ghost done: nat, ghost before: seq<Request>)
    returns (taken: bool, next: nat)
    requires dev.trace == before + FillRequests(part, off, done, block) && dev.Reflects(|dev.trace|)
    requires |block| == dev.size && blk == Lba(part, off + done)
    modifies dev
    ensures dev.trace == before + FillRequests(part, off, done + 1, block)
    ensures taken <==> dev.answer(|before| + done) == 1
    ensures dev.Reflects(|before| + if taken then done + 1 else done)
    ensures taken ==> next == Lba(part, off + (done + 1))
  {
    FillGrows(part, off, done, block);
    WrapAdd(part.start + (off + done), 1, Pow2(part.bits));
    var written := dev.BlockWrite(blk, 1, block);
    taken, next := written == 1, Wrap(blk + 1, Pow2(part.bits));
  }

  lemma {:induction false} FillPrefix(part: Partition, off: nat, i: nat, n: nat, block: seq<byte>, before: seq<Request>)
    requires i <= n
    ensures (before + FillRequests(part, off, n, block))[..|before| + i] == before + FillRequests(part, off, i, block)
  {
  }

  /** A fill chunk whose first `done` blocks were taken and, if there is one, the next was not. */
  lemma {:induction false} FillStep(j: Job, k: nat, c: Chunk, s: State, done: nat)
    requires j.part.blksz > 0 && c.kind == FILL && Refusal(j, k, s.off, c).None? && done <= Blocks(j, c)
    requires Taken(j.faults.answer, |s.requests|, |s.requests| + done)
    requires done < Blocks(j, c) ==> j.faults.answer(|s.requests| + done) != 1
    ensures var block := Repeat(c.body, j.part.blksz / 4);
            StepChunk(j, k, c, s) ==
            if done < Blocks(j, c) then
              Halt(s.(requests := s.requests + FillRequests(j.part, s.off, done + 1, block)), WriteFailed)
            else if j.h.blkSz == 0 then Trap(s.(requests := s.requests + Requests(j, s.off, c)))
            else Go(Advance(j, c, s))
  {
    TakenAnswers(j.faults.answer, s.requests, j.part, s.off, Blocks(j, c), Repeat(c.body, j.part.blksz / 4), done);
    AnsweredIs(j.faults.answer, s.requests + Requests(j, s.off, c), |s.requests|, |s.requests| + done);
    if done < Blocks(j, c) {
      FillPrefix(j.part, s.off, done + 1, Blocks(j, c), Repeat(c.body, j.part.blksz / 4), s.requests);
    }
  }

  /** The blocks of a fill chunk that was not refused. */
  method WriteFillBlocks(dev: BlockDevice, part: Partition, c: Chunk, blk0: nat, n: nat, block: seq<byte>,
                         ghost j: Job, ghost k: nat, ghost s: State)
    returns (done: nat, blk: nat)
    requires j.part == part && part.blksz > 0 && j.faults.answer == dev.answer && c.kind == FILL
    requires Refusal(j, k, s.off, c).None? && n == Blocks(j, c)
    requires block == Repeat(c.body, part.blksz / 4) && |block| == part.blksz == dev.size
    requires dev.trace == s.requests && dev.Reflects(|dev.trace|) && blk0 == Lba(part, s.off)
    modifies dev
    ensures done <= n && blk == Lba(part, s.off + done)
    ensures dev.trace == StepChunk(j, k, c, s).s.requests && dev.Reflects(|s.requests| + done)
    ensures |dev.trace| == |s.requests| + if done < n then done + 1 else n
    ensures done < n ==> StepChunk(j, k, c, s) == Halt(s.(requests := dev.trace), WriteFailed)
    ensures done == n && j.h.blkSz == 0 ==> StepChunk(j, k, c, s) == Trap(s.(requests := dev.trace))
    ensures done == n && j.h.blkSz != 0 ==> StepChunk(j, k, c, s) == Go(Advance(j, c, s))
  {
    done, blk := WriteBlocks(dev, part, blk0, n, block, s.off, s.requests);
    FillStep(j, k, c, s, done);
  }

  /** A buffer of one block, filled with the word at `p`. */
  method MakeBlock(part: Partition, m: Memory, p: nat, ghost j: Job) returns (block: seq<byte>)
    requires Ready(j) && j.part == part
    ensures block == Repeat(Bytes(m, p, 4), part.blksz / 4) && |block| == part.blksz
  {
    var fillBuf := new u32[RoundUp(part.blksz) / 4];
    FillBuffer(fillBuf, part.blksz / 4, Load32(m, p));
    block := BytesOf(fillBuf[..part.blksz / 4]);
    FilledBlock(j, m, p, block);
  }

  /** A fill chunk that was not refused, its buffer allocated and filled. */
  method WriteFilled(dev: BlockDevice, h: Header, part: Partition, c: Chunk, block: seq<byte>,
                     blk0: nat, bytes0: u32, total0: u32, ghost j: Job, ghost k: nat, ghost s: State)
    returns (failed: Option<Failure>, trapped: bool, blk: nat, bytes: u32, total: u32, ghost live: nat)
    requires Ready(j) && j.h == h && j.part == part && j.faults.answer == dev.answer && c.kind == FILL
    requires Refusal(j, k, s.off, c).None? && block == Repeat(c.body, part.blksz / 4) && |block| == part.blksz
    requires At(dev, part, blk0, bytes0, total0, s)
    modifies dev
    ensures var t := StepChunk(j, k, c, s);
            && dev.trace == t.s.requests && dev.Reflects(Shown(t)) && (trapped <==> t.Trap?)
            && match t
               case Go(s') => failed.None? && live == 0 && At(dev, part, blk, bytes, total, s')
               case Halt(_, f) => failed == Some(f) && live == 0 && f == WriteFailed
               case Trap(_) => failed.None? && live == 1
  {
    trapped, bytes, total, live := false, bytes0, total0, 1;
    var ds := DataSize(h, c.blocks);
    var n := BlockCount(ds, part.blksz);
    var done;
    done, blk := WriteFillBlocks(dev, part, c, blk0, n, block, j, k, s);
    if done != n {
      live := 0;
      return Some(WriteFailed), trapped, blk, bytes, total, live;
    }
    failed, bytes := None, Add32(bytes, ByteCount(n, part.blksz));
    if h.blkSz == 0 {
      trapped := true;
      return;
    }
    total := Add32(total, ds / h.blkSz);
    live := 0;
  }

  /** `live` counts the fill buffers allocated and not yet freed. */
  method WriteFill(dev: BlockDevice, h: Header, part: Partition, m: Memory, p: nat, c: Chunk, alloc: bool,
                   blk0: nat, bytes0: u32, total0: u32, ghost j: Job, ghost k: nat, ghost s: State)
    returns (failed: Option<Failure>, trapped: bool, blk: nat, bytes: u32, total: u32, ghost live: nat)
    requires Ready(j) && j.h == h && j.part == part && j.faults.answer == dev.answer && j.faults.alloc(k) == alloc
    requires c.kind == FILL && c.body == Bytes(m, p, 4)
    requires At(dev, part, blk0, bytes0, total0, s)
    modifies dev
    ensures var t := StepChunk(j, k, c, s);
            && dev.trace == t.s.requests && dev.Reflects(Shown(t)) && (trapped <==> t.Trap?)
            && match t
               case Go(s') => failed.None? && live == 0 && At(dev, part, blk, bytes, total, s')
               case Halt(_, f) => failed == Some(f) && live == if f == TooBig then 1 else 0
               case Trap(_) => failed.None? && live == 1
  {
    trapped, blk, bytes, total, live := false, blk0, bytes0, total0, 0;
    var n := BlockCount(DataSize(h, c.blocks), part.blksz);
    if c.total != h.chunkHdrSz + 4 {
      return Some(BogusFill), trapped, blk, bytes, total, live;
    }
    if !alloc {
      return Some(NoMemory), trapped, blk, bytes, total, live;
    }
    var block := MakeBlock(part, m, p, j);
    if Wrap(blk + n, Pow2(part.bits)) > Wrap(part.start + part.size, Pow2(part.bits)) {
      live := 1;
      return Some(TooBig), trapped, blk, bytes, total, live;
    }
    failed, trapped, blk, bytes, total, live := WriteFilled(dev, h, part, c, block, blk0, bytes0, total0, j, k, s);
  }

  lemma {:induction false} FilledBlock(j: Job, m: Memory, p: nat, block: seq<byte>)
    requires Ready(j) && block == Repeat(Le32(Load32(m, p)), j.part.blksz / 4)
    ensures block == Repeat(Bytes(m, p, 4), j.part.blksz / 4) && |block| == j.part.blksz
  {
    Le32Load32(m, p);
    ExactDivision(j, 0);
    RepeatLen(Bytes(m, p, 4), j.part.blksz / 4);
  }

  // ---------------------------------------------------------------- the whole image

  /** The fill buffers a chunk of this kind leaves allocated when it ends this way. */
  ghost function LeakOf(kind: u16, t: Step): nat {
    if t.Trap? || (t.Halt? && t.failure == TooBig && kind == FILL) then 1 else 0
  }

  /** One turn of the chunk loop: reads the chunk at `p` and carries it out. */
  method WriteChunk(dev: BlockDevice, h: Header, part: Partition, m: Memory, p: nat, alloc: bool,
                    blk0: nat, bytes0: u32, total0: u32, ghost j: Job, ghost k: nat, ghost s: State)
    returns (failed: Option<Failure>, trapped: bool, next: nat, blk: nat, bytes: u32, total: u32, ghost live: nat)
    requires Ready(j) && j.h == h && j.part == part && j.faults.answer == dev.answer && j.faults.alloc(k) == alloc
    requires At(dev, part, blk0, bytes0, total0, s)
    modifies dev
    ensures var c := ChunkAt(m, h, p);
            var t := StepChunk(j, k, c, s);
            && dev.trace == t.s.requests && dev.Reflects(Shown(t)) && (trapped <==> t.Trap?)
            && live == LeakOf(c.kind, t)
            && match t
               case Go(s') => failed.None? && next == NextAt(m, h, p) && At(dev, part, blk, bytes, total, s')
               case Halt(_, f) => failed == Some(f)
               case Trap(_) => failed.None?
  {
    trapped, blk, bytes, total, live := false, blk0, bytes0, total0, 0;
    var c, ds := ChunkAt(m, h, p), DataSize(h, Load32(m, p + 4));
    next := p + CHUNK_HEADER_LEN;
    if h.chunkHdrSz > CHUNK_HEADER_LEN {
      next := next + (h.chunkHdrSz - CHUNK_HEADER_LEN);
    }
    if c.kind == RAW {
      failed, blk, bytes, total := WriteRaw(dev, h, part, m, next, c, blk, bytes, total, j, k, s);
      next := next + ds;
    } else if c.kind == FILL {
      failed, trapped, blk, bytes, total, live :=
        WriteFill(dev, h, part, m, next, c, alloc, blk, bytes, total, j, k, s);
      next := next + 4;
    } else {
      failed, total, next := SkipChunk(h, part, c, total, next, j, k, s);
    }
  }

  lemma {:induction false} IdleStep(j: Job, k: nat, c: Chunk, s: State)
    requires j.part.blksz > 0 && !Writes(c) && s.bytes < TWO32
    ensures StepChunk(j, k, c, s) ==
            if c.kind == DONT_CARE || (c.kind == CRC32 && c.total == j.h.chunkHdrSz)
            then Go(s.(total := Add32(s.total, c.blocks)))
            else Halt(s, if c.kind == CRC32 then BogusCrc else UnknownType)
  {
    assert s.requests + [] == s.requests;
    assert ByteCount(0, j.part.blksz) == 0;
  }

  /** A chunk that writes nothing. */
  method SkipChunk(h: Header, part: Partition, c: Chunk, total0: u32, p: nat,
                   ghost j: Job, ghost k: nat, ghost s: State)
    returns (failed: Option<Failure>, total: u32, next: nat)
    requires j.h == h && j.part == part && part.blksz > 0 && !Writes(c) && total0 == s.total
    ensures match StepChunk(j, k, c, s)
            case Go(s') => failed.None? && s' == s.(total := total) && next == p + Skip(h, c.kind, c.blocks)
            case Halt(s', f) => failed == Some(f) && s' == s && f != TooBig && f != WriteFailed
            case Trap(_) => false
  {
    IdleStep(j, k, c, s);
    failed, total, next := None, total0, p;
    if c.kind == DONT_CARE {
      total := Add32(total, c.blocks);
    } else if c.kind == CRC32 {
      if c.total != h.chunkHdrSz {
        return Some(BogusCrc), total, next;
      }
      total, next := Add32(total, c.blocks), next + DataSize(h, c.blocks);
    } else {
      failed := Some(UnknownType);
    }
  }

  /** A step goes on with the rest of the run, or ends it with this much on the device and these buffers allocated. */
  lemma {:induction false} StepEnds(j: Job, cs: seq<Chunk>, k: nat, s: State, t: Step)
    requires j.part.blksz > 0 && k < |cs| && t == StepChunk(j, k, cs[k], s)
    ensures t.Go? ==> Run(j, cs, k, s) == Run(j, cs, k + 1, t.s)
    ensures t.Halt? ==> Run(j, cs, k, s) == Outcome(t.s, Halted(k, t.failure))
    ensures t.Trap? ==> Run(j, cs, k, s) == Outcome(t.s, Trapped(k))
  {
  }

  /** What a run that is over has left behind. */
  ghost predicate Over(dev: BlockDevice, cs: seq<Chunk>, o: Outcome, failed: Option<Failure>, trapped: bool, live: nat)
    reads dev
  {
    && dev.trace == o.s.requests && dev.Reflects(Accepted(o)) && live == Leaked(cs, o.end)
    && (trapped <==> o.end.Trapped?)
    && failed == (if o.end.Halted? then Some(o.end.failure) else None)
  }

  /** Chunk `k` of the loop: the run either goes on from state `t.s` or is over. */
  method NextChunk(dev: BlockDevice, h: Header, part: Partition, m: Memory, p: nat, alloc: bool,
                   blk0: nat, bytes0: u32, total0: u32,
                   ghost j: Job, ghost cs: seq<Chunk>, ghost k: nat, ghost s: State)
    returns (failed: Option<Failure>, trapped: bool, next: nat, blk: nat, bytes: u32, total: u32,
             ghost live: nat, ghost s': State)
    requires Ready(j) && j.h == h && j.part == part && j.faults.answer == dev.answer && j.faults.alloc(k) == alloc
    requires k < |cs| && cs[k] == ChunkAt(m, h, p) && At(dev, part, blk0, bytes0, total0, s)
    modifies dev
    ensures failed.None? && !trapped ==>
              && Run(j, cs, k, s) == Run(j, cs, k + 1, s') && next == NextAt(m, h, p)
              && At(dev, part, blk, bytes, total, s') && live == 0
    ensures failed.Some? || trapped ==>
              !Run(j, cs, k, s).end.Finished? && Over(dev, cs, Run(j, cs, k, s), failed, trapped, live)
  {
    ghost var t := StepChunk(j, k, cs[k], s);
    failed, trapped, next, blk, bytes, total, live :=
      WriteChunk(dev, h, part, m, p, alloc, blk0, bytes0, total0, j, k, s);
    if failed.None? && !trapped {
      StepEnds(j, cs, k, s, t);
    } else {
      StepIsOver(dev, j, cs, k, s, t, failed, trapped, live);
    }
    s' := t.s;
  }

  lemma {:induction false} StepIsOver(dev: BlockDevice, j: Job, cs: seq<Chunk>, k: nat, s: State, t: Step,
                   failed: Option<Failure>, trapped: bool, live: nat)
    requires j.part.blksz > 0 && k < |cs| && t == StepChunk(j, k, cs[k], s) && !t.Go?
    requires dev.trace == t.s.requests && dev.Reflects(Shown(t)) && live == LeakOf(cs[k].kind, t)
    requires (trapped <==> t.Trap?) && failed == (if t.Halt? then Some(t.failure) else None)
    ensures !Run(j, cs, k, s).end.Finished? && Over(dev, cs, Run(j, cs, k, s), failed, trapped, live)
  {
    StepEnds(j, cs, k, s, t);
  }

  /** The chunk loop, for the chunks `cs` that the buffer decodes to. */
  method WriteChunks(dev: BlockDevice, h: Header, part: Partition, alloc: nat -> bool, m: Memory, first: nat,
                     ghost j: Job, ghost cs: seq<Chunk>)
    returns (failed: Option<Failure>, trapped: bool, bytes: u32, total: u32, ghost live: nat)
    requires Ready(j) && j == Job(h, part, Faults(alloc, dev.answer)) && cs == Decode(m, h) && first == FirstChunk(h)
    requires dev.size == part.blksz && dev.trace == [] && dev.Reflects(0)
    modifies dev
    ensures Over(dev, cs, Run(j, cs, 0, START), failed, trapped, live)
    ensures var o := Run(j, cs, 0, START); o.end.Finished? ==> bytes == o.s.bytes && total == o.s.total
  {
    failed, trapped, bytes, total, live := None, false, 0, 0, 0;
    ghost var s := START;
    var p, blk, chunk := first, part.start, 0;
    while chunk < h.totalChunks
      invariant 0 <= chunk <= h.totalChunks && p == Cursor(m, h, chunk)
      invariant At(dev, part, blk, bytes, total, s) && live == 0 && !trapped && failed.None?
      invariant Run(j, cs, chunk, s) == Run(j, cs, 0, START)
    {
      failed, trapped, p, blk, bytes, total, live, s :=
        NextChunk(dev, h, part, m, p, alloc(chunk), blk, bytes, total, j, cs, chunk, s);
      if trapped || failed.Some? {
        return;
      }
      chunk := chunk + 1;
    }
  }

  /** What is reported to the host, in order. */
  function Responses(h: Header, o: Outcome): seq<Response> {
    match o.end
    case Halted(_, f) => [Fail(f)]
    case Trapped(_) => []
    case Finished => if o.s.total != h.totalBlks then [Fail(Miscount), Okay] else [Okay]
  }

  /** Fill buffers still allocated when the function returns. */
  function Leaked(cs: seq<Chunk>, end: End): nat {
    match end
    case Halted(k, f) => if f == TooBig && k < |cs| && cs[k].kind == FILL then 1 else 0
    case Trapped(_) => 1
    case Finished => 0
  }

  /** The chunks of an image that passed the block size check, and the verdict on them. */
  method WriteAccepted(dev: BlockDevice, reply: Reply, h: Header, part: Partition, alloc: nat -> bool, m: Memory,
                       first: nat, ghost j: Job, ghost cs: seq<Chunk>, ghost o: Outcome)
    returns (bytes: u32, trapped: bool, ghost live: nat)
    requires Ready(j) && j == Job(h, part, Faults(alloc, dev.answer)) && cs == Decode(m, h) && first == FirstChunk(h)
    requires o == Run(j, cs, 0, START)
    requires dev.size == part.blksz && dev.trace == [] && dev.Reflects(0) && reply.Valid() && reply.log == []
    modifies dev, reply
    ensures reply.Valid() && reply.log == Responses(h, o)
    ensures dev.trace == o.s.requests && dev.Reflects(Accepted(o))
    ensures live == Leaked(cs, o.end)
    ensures trapped <==> o.end.Trapped?
    ensures o.end.Finished? ==> bytes == o.s.bytes
  {
    var failed, total;
    failed, trapped, bytes, total, live := WriteChunks(dev, h, part, alloc, m, first, j, cs);
    if trapped {
      return;
    }
    if failed.Some? {
      reply.Fail(failed.value);
      return;
    }
    if total != h.totalBlks {
      reply.Fail(Miscount);
    }
    reply.Okay();
  }

  /** Flashes the image at `m`. `alloc(k)` says whether the buffer for chunk k can be allocated. Either the
      block size check fails and nothing is written, or the device sees exactly the requests of the pure
      run over the decoded chunks, and the responses and the buffers left allocated are that run's. */
  method WriteSparseImage(dev: BlockDevice, reply: Reply, part: Partition, alloc: nat -> bool, m: Memory)
    returns (bytes: u32, trapped: bool, ghost live: nat)
    requires Sane(part) && dev.size == part.blksz && dev.trace == [] && dev.Reflects(0)
    requires reply.Valid() && reply.log == []
    modifies dev, reply
    ensures reply.Valid()
    ensures var h := HeaderAt(m);
            if h.blkSz % part.blksz != 0 then
              && dev.trace == [] && dev.blocks == old(dev.blocks)
              && reply.log == [Fail(BlockSize)] && !trapped && live == 0
            else
              var cs := Decode(m, h);
              var o := Run(Job(h, part, Faults(alloc, dev.answer)), cs, 0, START);
              && dev.trace == o.s.requests && dev.Reflects(Accepted(o))
              && reply.log == Responses(h, o)
              && live == Leaked(cs, o.end)
              && (trapped <==> o.end.Trapped?)
              && (o.end.Finished? ==> bytes == o.s.bytes)
  {
    var h := HeaderAt(m);
    var p: nat := h.fileHdrSz;
    if h.fileHdrSz > SPARSE_HEADER_LEN {
      p := p + (h.fileHdrSz - SPARSE_HEADER_LEN);
    }
    MaskIsDivisibility(h, part);
    if h.blkSz != And(h.blkSz, Not(part.bits, part.blksz - 1)) {
      bytes, trapped, live := 0, false, 0;
      reply.Fail(BlockSize);
    } else {
      ghost var j, cs := Job(h, part, Faults(alloc, dev.answer)), Decode(m, h);
      bytes, trapped, live := WriteAccepted(dev, reply, h, part, alloc, m, p, j, cs, Run(j, cs, 0, START));
    }
  }

  lemma {:induction false} MaskIsDivisibility(h: Header, part: Partition)
    requires Sane(part)
    ensures part.blksz < Pow2(part.bits)
    ensures h.blkSz == And(h.blkSz, Not(part.bits, part.blksz - 1)) <==> h.blkSz % part.blksz == 0
  {
    Pow2Of32();
    Pow2Monotone(32, part.bits);
    MaskDecidesDivisibility(part.bits, part.blksz);
    assert PassesMask(part.bits, h.blkSz, part.blksz) <==> h.blkSz % part.blksz == 0;
  }
}
