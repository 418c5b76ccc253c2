/** What a run leaves on the disk: the bytes an image stands for, laid out without gaps from the
    start of the partition, up to the point where the run stopped. */
module SparseDisk {
  import opened Words
  import opened SparseFormat
  import opened SparseRun

  /** The bytes a chunk stands for: its payload, or its word repeated over its extent. */
  function Payload(h: Header, c: Chunk): seq<byte> {
    if c.kind == RAW then c.body
    else if c.kind == FILL then Repeat(c.body, DataSize(h, c.blocks) / 4)
    else []
  }

  /** The bytes the first `k` chunks stand for, without gaps. */
  function Expand(h: Header, cs: seq<Chunk>, k: nat): seq<byte>
    requires k <= |cs|
  {
    if k == 0 then [] else Expand(h, cs, k - 1) + Payload(h, cs[k - 1])
  }

  /** Blocks asked for by the first `n` requests. */
  function Count(reqs: seq<Request>, n: nat): nat
    requires n <= |reqs|
  {
    if n == 0 then 0 else Count(reqs, n - 1) + reqs[n - 1].cnt
  }

  /** The data of the first `n` requests. */
  function Flat(reqs: seq<Request>, n: nat): seq<byte>
    requires n <= |reqs|
  {
    if n == 0 then [] else Flat(reqs, n - 1) + reqs[n - 1].data
  }

  /** Payload sizes are those the decoder produces. */
  ghost predicate Sized(h: Header, cs: seq<Chunk>) {
    forall k :: 0 <= k < |cs| ==> |cs[k].body| == BodyLen(h, cs[k].kind, cs[k].blocks)
  }

  lemma {:induction false} DecodeSized(m: Memory, h: Header)
    ensures Sized(h, Decode(m, h))
  {
  }

  // ---------------------------------------------------------------- exact division

  /** For every chunk, wrapping or not, `blkcnt * blksz` is exactly `chunk_data_sz`. */
  lemma {:induction false} ExactDivision(j: Job, blocks: u32)
    requires Ready(j)
    ensures DataSize(j.h, blocks) / j.part.blksz * j.part.blksz == DataSize(j.h, blocks)
    ensures DataSize(j.h, blocks) / j.part.blksz * (j.part.blksz / 4) == DataSize(j.h, blocks) / 4
    ensures j.part.blksz % 4 == 0
  {
    var bs := j.part.blksz;
    WrapKeepsDivisor(bs, j.h.blkSz, blocks);
    FourDivides(bs);
    QuarterProduct(DataSize(j.h, blocks), bs);
  }

  lemma {:induction false} FourDivides(bs: nat)
    requires IsPow2(bs) && bs >= 4
    ensures bs % 4 == 0
  {
    var e: nat :| bs == Pow2(e);
    assert Pow2(0) == 1 && Pow2(1) == 2;
    assert Pow2(e) == 2 * Pow2(e - 1) && Pow2(e - 1) == 2 * Pow2(e - 2);
  }

  lemma {:induction false} QuarterProduct(ds: nat, bs: nat)
    requires bs > 0 && bs % 4 == 0 && ds % bs == 0
    ensures ds / bs * (bs / 4) == ds / 4
  {
    var n, w := ds / bs, bs / 4;
    assert ds == n * (4 * w) == n * w * 4;
  }

  // ---------------------------------------------------------------- sequences of requests

  /** `Count` and `Flat` of a prefix depend on that prefix alone. */
  lemma {:induction false} CountSame(a: seq<Request>, b: seq<Request>, n: nat)
    requires n <= |a| && a <= b
    ensures Count(a, n) == Count(b, n) && Flat(a, n) == Flat(b, n)
  {
    if n > 0 { CountSame(a, b, n - 1); }
  }

  lemma {:induction false} CountAppend(a: seq<Request>, b: seq<Request>, n: nat)
    requires n <= |b|
    ensures Count(a + b, |a| + n) == Count(a, |a|) + Count(b, n)
    ensures Flat(a + b, |a| + n) == Flat(a, |a|) + Flat(b, n)
  {
    if n == 0 {
      CountSame(a, a + b, |a|);
    } else {
      CountAppend(a, b, n - 1);
      assert Flat(a, |a|) + Flat(b, n) == Flat(a, |a|) + Flat(b, n - 1) + b[n - 1].data;
    }
  }

  lemma {:induction false} FlatAppend(a: seq<Request>, b: seq<Request>)
    ensures Count(a + b, |a + b|) == Count(a, |a|) + Count(b, |b|)
    ensures Flat(a + b, |a + b|) == Flat(a, |a|) + Flat(b, |b|)
  {
    assert |a + b| == |a| + |b|;
    CountAppend(a, b, |b|);
  }

  lemma {:induction false} CountMonotone(reqs: seq<Request>, m: nat, n: nat)
    requires m <= n <= |reqs|
    ensures Count(reqs, m) <= Count(reqs, n) && Flat(reqs, m) <= Flat(reqs, n)
  {
    if m < n { CountMonotone(reqs, m, n - 1); }
  }

  lemma {:induction false} RepeatLen(word: seq<byte>, n: nat)
    requires |word| == 4
    ensures |Repeat(word, n)| == 4 * n
  {
    if n > 0 { RepeatLen(word, n - 1); }
  }

  lemma {:induction false} RepeatRepeat(word: seq<byte>, a: nat, n: nat)
    ensures Repeat(Repeat(word, a), n) == Repeat(word, n * a)
  {
    if n > 0 {
      RepeatRepeat(word, a, n - 1);
      RepeatAdd(word, (n - 1) * a, a);
      assert (n - 1) * a + a == n * a;
    }
  }

  lemma {:induction false} RepeatAdd(word: seq<byte>, a: nat, b: nat)
    ensures Repeat(word, a + b) == Repeat(word, a) + Repeat(word, b)
  {
    if b > 0 { RepeatAdd(word, a, b - 1); }
  }

  lemma {:induction false} FillFlat(part: Partition, off: nat, reqs: seq<Request>, n: nat, block: seq<byte>)
    requires n <= |reqs| && reqs == FillRequests(part, off, |reqs|, block)
    ensures Count(reqs, n) == n
    ensures Flat(reqs, n) == Repeat(block, n)
  {
    if n > 0 { FillFlat(part, off, reqs, n - 1, block); }
  }

  /** A chunk's requests carry exactly its bytes, a whole number of blocks. */
  lemma {:induction false} RequestsFlat(j: Job, off: nat, c: Chunk)
    requires Ready(j) && |c.body| == BodyLen(j.h, c.kind, c.blocks)
    ensures var r := Requests(j, off, c); Count(r, |r|) == Blocks(j, c) && Flat(r, |r|) == Payload(j.h, c)
  {
    var r, n, w := Requests(j, off, c), Blocks(j, c), j.part.blksz / 4;
    if c.kind == RAW {
      assert Count(r, 0) == 0 && Flat(r, 0) == [];
    } else if c.kind == FILL {
      ExactDivision(j, c.blocks);
      FillFlat(j.part, off, r, n, Repeat(c.body, w));
      RepeatRepeat(c.body, w, n);
    }
  }

  /** The plan of a chunk list carries exactly the bytes the list stands for. */
  lemma {:induction false} PlanFlat(j: Job, cs: seq<Chunk>, k: nat)
    requires Ready(j) && Sized(j.h, cs) && k <= |cs|
    ensures var p := Plan(j, cs, k); Count(p, |p|) == Extent(j, cs, k) && Flat(p, |p|) == Expand(j.h, cs, k)
  {
    if k > 0 {
      PlanFlat(j, cs, k - 1);
      PlanFlatNext(j, cs, k - 1, Plan(j, cs, k - 1));
    }
  }

  lemma {:induction false} PlanFlatNext(j: Job, cs: seq<Chunk>, k: nat, p: seq<Request>)
    requires Ready(j) && Sized(j.h, cs) && k < |cs| && p == Plan(j, cs, k)
    requires Count(p, |p|) == Extent(j, cs, k) && Flat(p, |p|) == Expand(j.h, cs, k)
    ensures var q := Plan(j, cs, k + 1); Count(q, |q|) == Extent(j, cs, k + 1) && Flat(q, |q|) == Expand(j.h, cs, k + 1)
  {
    RequestsFlat(j, Extent(j, cs, k), cs[k]);
    FlatAppend(p, Requests(j, Extent(j, cs, k), cs[k]));
  }

  lemma {:induction false} PlanPrefix(j: Job, cs: seq<Chunk>, k: nat, n: nat)
    requires j.part.blksz > 0 && k <= n <= |cs|
    ensures Plan(j, cs, k) <= Plan(j, cs, n)
    ensures Extent(j, cs, k) <= Extent(j, cs, n)
  {
    if k < n { PlanPrefix(j, cs, k, n - 1); }
  }

  // ---------------------------------------------------------------- layout

  /** A request carries whole blocks. */
  predicate Whole(size: nat, r: Request) {
    |r.data| == r.cnt * size
  }

  /** From `off` on, the first `n` requests follow each other without gap or overlap, each carrying whole blocks. */
  ghost predicate Laid(part: Partition, off: nat, reqs: seq<Request>, n: nat)
    requires n <= |reqs|
  {
    forall i :: 0 <= i < n ==> LaidAt(part, off, reqs, i)
  }

  predicate LaidAt(part: Partition, off: nat, reqs: seq<Request>, i: nat)
    requires i < |reqs|
  {
    reqs[i].blk == Lba(part, off + Count(reqs, i)) && Whole(part.blksz, reqs[i])
  }

  lemma {:induction false} LaidLeft(part: Partition, a: seq<Request>, b: seq<Request>, i: nat)
    requires i < |a| && LaidAt(part, 0, a, i)
    ensures LaidAt(part, 0, a + b, i)
  {
    CountSame(a, a + b, i);
  }

  lemma {:induction false} LaidRight(part: Partition, a: seq<Request>, b: seq<Request>, off: nat, i: nat)
    requires i < |b| && Count(a, |a|) == off && LaidAt(part, off, b, i)
    ensures LaidAt(part, 0, a + b, |a| + i)
  {
    CountAppend(a, b, i);
  }

  lemma {:induction false} LaidPrefix(part: Partition, off: nat, a: seq<Request>, b: seq<Request>)
    requires a <= b && Laid(part, off, b, |b|)
    ensures Laid(part, off, a, |a|)
  {
    forall i | 0 <= i < |a| ensures LaidAt(part, off, a, i) {
      CountSame(a, b, i);
      assert LaidAt(part, off, b, i);
    }
  }

  lemma {:induction false} RequestLaid(j: Job, off: nat, c: Chunk, i: nat)
    requires Ready(j) && |c.body| == BodyLen(j.h, c.kind, c.blocks) && i < |Requests(j, off, c)|
    ensures LaidAt(j.part, off, Requests(j, off, c), i)
  {
    ExactDivision(j, c.blocks);
    if c.kind == FILL {
      RepeatLen(c.body, j.part.blksz / 4);
      FillFlat(j.part, off, Requests(j, off, c), i, Repeat(c.body, j.part.blksz / 4));
    }
  }

  lemma {:induction false} LaidJoined(part: Partition, a: seq<Request>, b: seq<Request>, off: nat)
    requires Laid(part, 0, a, |a|) && Count(a, |a|) == off && Laid(part, off, b, |b|)
    ensures Laid(part, 0, a + b, |a + b|)
  {
    forall i | 0 <= i < |a + b| ensures LaidAt(part, 0, a + b, i) {
      if i < |a| {
        assert LaidAt(part, 0, a, i);
        LaidLeft(part, a, b, i);
      } else {
        assert LaidAt(part, off, b, i - |a|);
        LaidRight(part, a, b, off, i - |a|);
      }
    }
  }

  lemma {:induction false} RequestsLaid(j: Job, off: nat, c: Chunk, r: seq<Request>)
    requires Ready(j) && |c.body| == BodyLen(j.h, c.kind, c.blocks) && r == Requests(j, off, c)
    ensures Laid(j.part, off, r, |r|)
  {
    forall i | 0 <= i < |r| ensures LaidAt(j.part, off, r, i) {
      RequestLaid(j, off, c, i);
    }
  }

  lemma {:induction false} PlanLaid(j: Job, cs: seq<Chunk>, k: nat, p: seq<Request>)
    requires Ready(j) && Sized(j.h, cs) && k <= |cs| && p == Plan(j, cs, k)
    ensures Laid(j.part, 0, p, |p|)
  {
    if k > 0 {
      PlanLaid(j, cs, k - 1, Plan(j, cs, k - 1));
      PlanLaidNext(j, cs, k - 1, Plan(j, cs, k - 1));
    }
  }

  lemma {:induction false} PlanLaidNext(j: Job, cs: seq<Chunk>, k: nat, p: seq<Request>)
    requires Ready(j) && Sized(j.h, cs) && k < |cs| && p == Plan(j, cs, k) && Laid(j.part, 0, p, |p|)
    ensures var q := Plan(j, cs, k + 1); Laid(j.part, 0, q, |q|)
  {
    var off := Extent(j, cs, k);
    assert Count(p, |p|) == off by { PlanFlat(j, cs, k); }
    RequestsLaid(j, off, cs[k], Requests(j, off, cs[k]));
    LaidJoined(j.part, p, Requests(j, off, cs[k]), off);
  }

  /** Request `i` is for the block, in `lbaint_t`, that many behind the start as were asked for before. */
  lemma {:induction false} PlanAddress(j: Job, cs: seq<Chunk>, k: nat, plan: seq<Request>, i: nat)
    requires Ready(j) && Sized(j.h, cs) && k <= |cs| && plan == Plan(j, cs, k) && i < |plan|
    ensures plan[i].blk == (j.part.start + Count(plan, i)) % Pow2(j.part.bits)
  {
    PlanLaid(j, cs, k, plan);
    assert LaidAt(j.part, 0, plan, i);
    WrapIsMod(j.part.start + Count(plan, i), Pow2(j.part.bits));
  }

  // ---------------------------------------------------------------- disk contents

  type Block = seq<byte>

  predicate Covers(r: Request, b: nat) {
    r.blk <= b < r.blk + r.cnt
  }

  ghost predicate AllWhole(size: nat, reqs: seq<Request>) {
    forall i :: 0 <= i < |reqs| ==> Whole(size, reqs[i])
  }

  /** Block `b` after the first `n` requests were carried out on `disk`. */
  ghost function Content(disk: nat -> Block, size: nat, reqs: seq<Request>, n: nat, b: nat): Block
    requires n <= |reqs| && AllWhole(size, reqs)
  {
    if n == 0 then disk(b)
    else
      var r := reqs[n - 1];
      if Covers(r, b) then Piece(r.data, size, b - r.blk, r.cnt) else Content(disk, size, reqs, n - 1, b)
  }

  lemma {:induction false} ContentSame(disk: nat -> Block, size: nat, a: seq<Request>, b: seq<Request>, n: nat,
                                       blk: nat)
    requires n <= |a| && a <= b && AllWhole(size, a) && AllWhole(size, b)
    ensures Content(disk, size, a, n, blk) == Content(disk, size, b, n, blk)
  {
    if n > 0 { ContentSame(disk, size, a, b, n - 1, blk); }
  }

  /** The i-th block of a byte string of `n` blocks. */
  function Piece(data: seq<byte>, size: nat, i: nat, n: nat): Block
    requires i < n && |data| == n * size
  {
    MulGap(i, n, size);
    data[i * size..i * size + size]
  }

  lemma {:induction false} SliceOfSum(a: seq<byte>, b: seq<byte>, x: nat, n: nat)
    requires x + n <= |a| || |a| <= x
    requires x + n <= |a| + |b|
    ensures (a + b)[x..x + n] == if x + n <= |a| then a[x..x + n] else b[x - |a|..x - |a| + n]
  {
  }

  lemma {:induction false} PieceOfSum(a: seq<byte>, b: seq<byte>, size: nat, i: nat, na: nat, nb: nat)
    requires |a| == na * size && |b| == nb * size && i < na + nb && size > 0
    ensures |a + b| == (na + nb) * size
    ensures Piece(a + b, size, i, na + nb) == if i < na then Piece(a, size, i, na) else Piece(b, size, i - na, nb)
  {
    Distribute(na, nb, size);
    if i < na {
      PieceOfLeft(a, b, size, i, na, na + nb);
    } else {
      PieceOfRight(a, b, size, i, na, nb, na + nb);
    }
  }

  lemma {:induction false} PieceOfRight(a: seq<byte>, b: seq<byte>, size: nat, i: nat, na: nat, nb: nat, n: nat)
    requires |a| == na * size && |b| == nb * size && |a + b| == n * size && na <= i < n == na + nb && size > 0
    ensures Piece(a + b, size, i, n) == Piece(b, size, i - na, nb)
  {
    var x, y := i * size, (i - na) * size;
    assert x == |a| + y by { Distribute(na, i - na, size); }
    assert y + size <= |b| by { MulGap(i - na, nb, size); }
    SliceOfRight(a, b, x, y, size);
  }

  lemma {:induction false} SliceOfRight(a: seq<byte>, b: seq<byte>, x: nat, y: nat, n: nat)
    requires x == |a| + y && y + n <= |b|
    ensures (a + b)[x..x + n] == b[y..y + n]
  {
  }

  lemma {:induction false} PieceOfLeft(a: seq<byte>, b: seq<byte>, size: nat, i: nat, na: nat, n: nat)
    requires |a| == na * size && |a + b| == n * size && i < na <= n && size > 0
    ensures Piece(a + b, size, i, n) == Piece(a, size, i, na)
  {
    MulGap(i, na, size);
    SliceOfSum(a, b, i * size, size);
  }

  lemma {:induction false} LaidFlat(part: Partition, off: nat, reqs: seq<Request>, n: nat)
    requires n <= |reqs| && Laid(part, off, reqs, n)
    ensures |Flat(reqs, n)| == Count(reqs, n) * part.blksz
  {
    if n > 0 {
      LaidFlat(part, off, reqs, n - 1);
      assert LaidAt(part, off, reqs, n - 1);
      Distribute(Count(reqs, n - 1), reqs[n - 1].cnt, part.blksz);
    }
  }

  lemma {:induction false} LaidWhole(part: Partition, off: nat, reqs: seq<Request>)
    requires Laid(part, off, reqs, |reqs|)
    ensures AllWhole(part.blksz, reqs)
  {
    forall i | 0 <= i < |reqs| ensures Whole(part.blksz, reqs[i]) {
      assert LaidAt(part, off, reqs, i);
    }
  }

  /** What block `b` holds once the bytes `data`, `count` blocks of them, lie at the start of the partition. */
  function Placed(disk: nat -> Block, part: Partition, data: seq<byte>, count: nat, b: nat): Block
    requires |data| == count * part.blksz
  {
    if part.start <= b < part.start + count then Piece(data, part.blksz, b - part.start, count) else disk(b)
  }

  /** Requests laid out from the start of the partition put their bytes there, in order, and touch nothing else. */
  lemma {:induction false} ContentIs(disk: nat -> Block, part: Partition, reqs: seq<Request>, n: nat, b: nat)
    requires n <= |reqs| && Laid(part, 0, reqs, n) && AllWhole(part.blksz, reqs)
    requires part.blksz > 0 && part.start + Count(reqs, n) < Pow2(part.bits)
    ensures |Flat(reqs, n)| == Count(reqs, n) * part.blksz
    ensures Content(disk, part.blksz, reqs, n, b) == Placed(disk, part, Flat(reqs, n), Count(reqs, n), b)
  {
    LaidFlat(part, 0, reqs, n);
    if n > 0 {
      var r, c := reqs[n - 1], Count(reqs, n - 1);
      ContentIs(disk, part, reqs, n - 1, b);
      assert LaidAt(part, 0, reqs, n - 1);
      assert r.blk == part.start + c;
      if part.start <= b < part.start + c + r.cnt {
        PieceOfSum(Flat(reqs, n - 1), r.data, part.blksz, b - part.start, c, r.cnt);
      }
    }
  }

  // ---------------------------------------------------------------- where a run stops

  /** How many of the requests were carried out in full. */
  function Accepted(o: Outcome): nat {
    if o.end.Halted? && o.end.failure == WriteFailed && o.s.requests != []
    then |o.s.requests| - 1
    else |o.s.requests|
  }

  lemma {:induction false} PassedAnswers(j: Job, cs: seq<Chunk>, k: nat)
    requires j.part.blksz > 0 && k <= |cs| && PassesAll(j, cs, k)
    ensures var p := Plan(j, cs, k); Answers(j.faults.answer, p, 0, |p|)
  {
    if k > 0 {
      PassedAnswers(j, cs, k - 1);
      assert Passes(j, cs, k - 1);
      assert Plan(j, cs, k - 1) <= Plan(j, cs, k);
    }
  }

  /** The requests issued are a prefix of the plan; all but possibly the last were answered in full;
      the last was not exactly when the run ended in a write failure; and the blocks written are those
      of whole chunks unless `cut`. */
  ghost predicate StoppedCleanly(answer: nat -> nat, plan: seq<Request>, o: Outcome, cut: bool) {
    && o.s.requests <= plan
    && Answers(answer, plan, 0, Accepted(o))
    && (Accepted(o) < |o.s.requests| <==> o.end.Halted? && o.end.failure == WriteFailed)
    && (Accepted(o) < |o.s.requests| ==> answer(Accepted(o)) != plan[Accepted(o)].cnt)
    && (Count(plan, Accepted(o)) == o.s.off || cut)
  }

  /** The chunks a run got through. */
  function Done(cs: seq<Chunk>, end: End): nat {
    if end.Finished? then |cs| else end.k
  }

  /** The run was given up at a block of a fill chunk that was not taken. */
  predicate CutInFill(cs: seq<Chunk>, end: End) {
    end.Halted? && end.failure == WriteFailed && end.k < |cs| && cs[end.k].kind == FILL
  }

  /** Whatever stops a run, what it has put on the disk is a prefix of the image's expansion: the chunks it got
      through, each in full, and, only if a block of a fill chunk was not taken, the blocks of that chunk before it. */
  lemma {:induction false} StopsAtPrefix(j: Job, cs: seq<Chunk>)
    requires Ready(j) && Sized(j.h, cs)
    ensures var o, plan := Run(j, cs, 0, START), Plan(j, cs, |cs|);
            && StoppedCleanly(j.faults.answer, plan, o, CutInFill(cs, o.end))
            && Flat(plan, Accepted(o)) <= Expand(j.h, cs, |cs|)
            && Done(cs, o.end) <= |cs| && o.s.off == Extent(j, cs, Done(cs, o.end))
            && (CutInFill(cs, o.end) ==> CutAt(j, cs, o.end.k, plan, Accepted(o)))
  {
    RunShape(j, cs);
    var o, plan := Run(j, cs, 0, START), Plan(j, cs, |cs|);
    StopsCleanly(j, cs, o);
    StopsAtChunk(j, cs, o);
    if CutInFill(cs, o.end) { HaltIsCut(j, cs, o, o.end.k, |cs|); }
    PlanFlat(j, cs, |cs|);
    CountMonotone(plan, Accepted(o), |plan|);
  }

  lemma {:induction false} StopsCleanly(j: Job, cs: seq<Chunk>, o: Outcome)
    requires Ready(j) && Sized(j.h, cs) && RunsTo(j, cs, o)
    ensures StoppedCleanly(j.faults.answer, Plan(j, cs, |cs|), o, CutInFill(cs, o.end))
  {
    var q := Done(cs, o.end);
    PassedPlanKnown(j, cs, q);
    if o.end.Halted? && o.end.failure == WriteFailed {
      HaltWriting(j, cs, q, o);
    } else {
      HaltRefused(j, cs, q, o);
    }
  }

  lemma {:induction false} StopsAtChunk(j: Job, cs: seq<Chunk>, o: Outcome)
    requires j.part.blksz > 0 && RunsTo(j, cs, o)
    ensures Done(cs, o.end) <= |cs| && o.s.off == Extent(j, cs, Done(cs, o.end))
  {
  }

  lemma {:induction false} HaltBounds(j: Job, cs: seq<Chunk>, q: nat, o: Outcome)
    requires j.part.blksz > 0 && q < |cs| && o.end == Halted(q, WriteFailed) && HaltsAt(j, cs, q, o.s, WriteFailed)
    ensures |Plan(j, cs, q)| <= Accepted(o) < |Plan(j, cs, q + 1)|
  {
  }

  lemma {:induction false} HaltIsCut(j: Job, cs: seq<Chunk>, o: Outcome, q: nat, n: nat)
    requires Ready(j) && Sized(j.h, cs) && q < n <= |cs| && cs[q].kind == FILL
    requires o.end == Halted(q, WriteFailed) && HaltsAt(j, cs, q, o.s, WriteFailed)
    ensures CutAt(j, cs, q, Plan(j, cs, n), Accepted(o))
  {
    HaltBounds(j, cs, q, o);
    StopsInPlan(j, cs, q, Accepted(o), n);
  }

  lemma {:induction false} StopsInPlan(j: Job, cs: seq<Chunk>, q: nat, i: nat, n: nat)
    requires Ready(j) && Sized(j.h, cs) && q < n <= |cs| && cs[q].kind == FILL
    requires |Plan(j, cs, q)| <= i < |Plan(j, cs, q + 1)|
    ensures CutAt(j, cs, q, Plan(j, cs, n), i)
  {
    PlanPrefix(j, cs, q + 1, n);
    StopsInFill(j, cs, q, i, Plan(j, cs, n));
  }

  lemma {:induction false} StopsInFill(j: Job, cs: seq<Chunk>, q: nat, n: nat, plan: seq<Request>)
    requires Ready(j) && Sized(j.h, cs) && q < |cs| && cs[q].kind == FILL && Plan(j, cs, q + 1) <= plan
    requires |Plan(j, cs, q)| <= n < |Plan(j, cs, q + 1)|
    ensures CutAt(j, cs, q, plan, n)
  {
    PlanFlat(j, cs, q);
    FillIsCut(j, Extent(j, cs, q), cs[q], n, plan, Plan(j, cs, q), Requests(j, Extent(j, cs, q), cs[q]));
  }

  /** The first `n` requests of the plan are those of the first `k` chunks and single blocks of chunk `k`, not all of
      them. */
  ghost predicate CutAt(j: Job, cs: seq<Chunk>, k: nat, plan: seq<Request>, n: nat)
    requires j.part.blksz > 0 && k < |cs|
  {
    var before := |Plan(j, cs, k)|;
    before <= n < before + Blocks(j, cs[k]) && n <= |plan| && Count(plan, n) == Extent(j, cs, k) + (n - before)
  }

  lemma {:induction false} FillIsCut(j: Job, off: nat, c: Chunk, n: nat, plan: seq<Request>, p: seq<Request>,
                                     r: seq<Request>)
    requires j.part.blksz > 0 && c.kind == FILL && r == Requests(j, off, c) && Count(p, |p|) == off
    requires p + r <= plan && |p| <= n < |p| + |r|
    ensures n < |p| + Blocks(j, c) && n <= |plan| && Count(plan, n) == off + (n - |p|)
  {
    FillCount(j, off, c, r, n - |p|);
    CountCut(p, r, n, plan, off);
  }

  lemma {:induction false} FillCount(j: Job, off: nat, c: Chunk, r: seq<Request>, i: nat)
    requires j.part.blksz > 0 && c.kind == FILL && r == Requests(j, off, c) && i <= |r|
    ensures |r| == Blocks(j, c) && Count(r, i) == i
  {
    FillFlat(j.part, off, r, i, Repeat(c.body, j.part.blksz / 4));
  }

  lemma {:induction false} CountCut(p: seq<Request>, r: seq<Request>, n: nat, plan: seq<Request>, off: nat)
    requires p + r <= plan && |p| <= n <= |p| + |r| && Count(p, |p|) == off && Count(r, n - |p|) == n - |p|
    ensures n <= |plan| && Count(plan, n) == off + (n - |p|)
  {
    CountAppend(p, r, n - |p|);
    CountSame(p + r, plan, n);
  }

  /** The first `q` chunks were carried out in full. */
  ghost predicate PlanKnown(j: Job, cs: seq<Chunk>, q: nat)
    requires j.part.blksz > 0 && q <= |cs|
  {
    var p, plan := Plan(j, cs, q), Plan(j, cs, |cs|);
    p <= plan && Answers(j.faults.answer, plan, 0, |p|) && Count(plan, |p|) == Extent(j, cs, q)
  }

  lemma {:induction false} PassedPlanKnown(j: Job, cs: seq<Chunk>, q: nat)
    requires Ready(j) && Sized(j.h, cs) && q <= |cs| && PassesAll(j, cs, q)
    ensures PlanKnown(j, cs, q)
  {
    PassedAnswers(j, cs, q);
    PlanPrefix(j, cs, q, |cs|);
    PlanFlat(j, cs, q);
    CountSame(Plan(j, cs, q), Plan(j, cs, |cs|), |Plan(j, cs, q)|);
  }

  lemma {:induction false} CutWriting(answer: nat -> nat, start: nat, reqs: seq<Request>, plan: seq<Request>,
                                      o: Outcome, cut: bool)
    requires reqs <= plan && start < |o.s.requests| && o.s.requests <= reqs
    requires Answers(answer, plan, 0, start) && Answers(answer, reqs, start, |o.s.requests| - 1)
    requires answer(|o.s.requests| - 1) != reqs[|o.s.requests| - 1].cnt
    requires o.end.Halted? && o.end.failure == WriteFailed
    requires Count(plan, start) == o.s.off && (cut || |o.s.requests| == start + 1)
    ensures StoppedCleanly(answer, plan, o, cut)
  {
    var a := Accepted(o);
    assert plan[a] == reqs[a];
  }

  lemma {:induction false} HaltWriting(j: Job, cs: seq<Chunk>, q: nat, o: Outcome)
    requires j.part.blksz > 0 && q < |cs| && o.end == Halted(q, WriteFailed) && HaltsAt(j, cs, q, o.s, WriteFailed)
    requires PlanKnown(j, cs, q)
    ensures StoppedCleanly(j.faults.answer, Plan(j, cs, |cs|), o, cs[q].kind == FILL)
  {
    PlanPrefix(j, cs, q + 1, |cs|);
    CutWriting(j.faults.answer, |Plan(j, cs, q)|, Plan(j, cs, q + 1), Plan(j, cs, |cs|), o, cs[q].kind == FILL);
  }

  lemma {:induction false} HaltRefused(j: Job, cs: seq<Chunk>, q: nat, o: Outcome)
    requires j.part.blksz > 0 && q <= |cs| && PlanKnown(j, cs, q)
    requires o.s.off == Extent(j, cs, q) && o.s.requests == Plan(j, cs, q)
    requires o.end.Halted? ==> o.end.failure != WriteFailed
    ensures StoppedCleanly(j.faults.answer, Plan(j, cs, |cs|), o, false)
  {
  }
}
