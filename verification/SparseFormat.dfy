/** The Android sparse image format: how the writer's cursor decodes an image, a printer for
    images, and when the two are inverse. */
module SparseFormat {
  import opened Words

  const SPARSE_HEADER_LEN := 28
  const CHUNK_HEADER_LEN := 12

  const RAW := 0xCAC1
  const FILL := 0xCAC2
  const DONT_CARE := 0xCAC3
  const CRC32 := 0xCAC4

  datatype Header = Header(magic: u32, major: u16, minor: u16, fileHdrSz: u16, chunkHdrSz: u16,
                           blkSz: u32, totalBlks: u32, totalChunks: u32, checksum: u32)

  /** `blocks` is `chunk_sz`, `total` is `total_sz`, `body` the payload bytes the writer uses. */
  datatype Chunk = Chunk(kind: u16, blocks: u32, total: u32, body: seq<byte>)

  // ---------------------------------------------------------------- the writer's cursor

  function HeaderAt(m: Memory): Header {
    Header(Load32(m, 0), Load16(m, 4), Load16(m, 6), Load16(m, 8), Load16(m, 10),
           Load32(m, 12), Load32(m, 16), Load32(m, 20), Load32(m, 24))
  }

  /** Where the first chunk header is looked for: the excess of a long header is added twice. */
  function FirstChunk(h: Header): nat {
    if h.fileHdrSz > SPARSE_HEADER_LEN
    then h.fileHdrSz + (h.fileHdrSz - SPARSE_HEADER_LEN)
    else h.fileHdrSz
  }

  function ChunkHeaderLen(h: Header): nat {
    if h.chunkHdrSz > CHUNK_HEADER_LEN
    then CHUNK_HEADER_LEN + (h.chunkHdrSz - CHUNK_HEADER_LEN)
    else CHUNK_HEADER_LEN
  }

  /** `chunk_data_sz`: a 32-bit product. */
  function DataSize(h: Header, blocks: u32): u32 {
    h.blkSz * blocks % TWO32
  }

  function BodyLen(h: Header, kind: u16, blocks: u32): nat {
    if kind == RAW then DataSize(h, blocks) else if kind == FILL then 4 else 0
  }

  /** How far the cursor moves past the chunk header. */
  function Skip(h: Header, kind: u16, blocks: u32): nat {
    if kind == CRC32 then DataSize(h, blocks) else BodyLen(h, kind, blocks)
  }

  function ChunkAt(m: Memory, h: Header, p: nat): Chunk {
    var kind, blocks := Load16(m, p), Load32(m, p + 4);
    Chunk(kind, blocks, Load32(m, p + 8), Bytes(m, p + ChunkHeaderLen(h), BodyLen(h, kind, blocks)))
  }

  function NextAt(m: Memory, h: Header, p: nat): nat {
    p + ChunkHeaderLen(h) + Skip(h, Load16(m, p), Load32(m, p + 4))
  }

  /** The cursor when chunk `k` is about to be read. */
  function Cursor(m: Memory, h: Header, k: nat): nat {
    if k == 0 then FirstChunk(h) else NextAt(m, h, Cursor(m, h, k - 1))
  }

  function Decode(m: Memory, h: Header): (cs: seq<Chunk>)
    ensures |cs| == h.totalChunks
  {
    seq(h.totalChunks, k requires 0 <= k < h.totalChunks => ChunkAt(m, h, Cursor(m, h, k)))
  }

  // ---------------------------------------------------------------- a printer

  function Zeros(n: nat): seq<byte> {
    seq(n, _ => 0)
  }

  function EncodeHeader(h: Header): seq<byte> {
    Le32(h.magic) + (Le16(h.major) + (Le16(h.minor) + (Le16(h.fileHdrSz) + (Le16(h.chunkHdrSz) +
    (Le32(h.blkSz) + (Le32(h.totalBlks) + (Le32(h.totalChunks) + (Le32(h.checksum) +
    Zeros(if h.fileHdrSz > SPARSE_HEADER_LEN then h.fileHdrSz - SPARSE_HEADER_LEN else 0)))))))))
  }

  /** A chunk header fills the bytes its size says, or its fields if that is less. */
  function EncodeChunk(h: Header, c: Chunk): seq<byte> {
    Le16(c.kind) + (Le16(0) + (Le32(c.blocks) + (Le32(c.total) +
    (Zeros(if h.chunkHdrSz > CHUNK_HEADER_LEN then h.chunkHdrSz - CHUNK_HEADER_LEN else 0) + c.body))))
  }

  /** The first `k` chunks, printed one after the other. */
  function EncodeChunks(h: Header, cs: seq<Chunk>, k: nat): seq<byte>
    requires k <= |cs|
  {
    if k == 0 then [] else EncodeChunks(h, cs, k - 1) + EncodeChunk(h, cs[k - 1])
  }

  function Encode(h: Header, cs: seq<Chunk>): seq<byte> {
    EncodeHeader(h) + EncodeChunks(h, cs, |cs|)
  }

  // ---------------------------------------------------------------- decoding what was printed

  lemma {:induction false} HeaderRoundTrip(m: Memory, h: Header)
    requires Holds(m, 0, EncodeHeader(h))
    ensures HeaderAt(m) == h
  {
    var pad := Zeros(if h.fileHdrSz > SPARSE_HEADER_LEN then h.fileHdrSz - SPARSE_HEADER_LEN else 0);
    var s8 := Le32(h.checksum) + pad;
    var s7 := Le32(h.totalChunks) + s8;
    var s6 := Le32(h.totalBlks) + s7;
    var s5 := Le32(h.blkSz) + s6;
    var s4 := Le16(h.chunkHdrSz) + s5;
    var s3 := Le16(h.fileHdrSz) + s4;
    var s2 := Le16(h.minor) + s3;
    var s1 := Le16(h.major) + s2;
    HoldsSplit(m, 0, Le32(h.magic), s1);
    HoldsSplit(m, 4, Le16(h.major), s2);
    HoldsSplit(m, 6, Le16(h.minor), s3);
    HoldsSplit(m, 8, Le16(h.fileHdrSz), s4);
    HoldsSplit(m, 10, Le16(h.chunkHdrSz), s5);
    HoldsSplit(m, 12, Le32(h.blkSz), s6);
    HoldsSplit(m, 16, Le32(h.totalBlks), s7);
    HoldsSplit(m, 20, Le32(h.totalChunks), s8);
    HoldsSplit(m, 24, Le32(h.checksum), pad);
    Load32Le32(m, 0, h.magic);
    Load16Le16(m, 4, h.major);
    Load16Le16(m, 6, h.minor);
    Load16Le16(m, 8, h.fileHdrSz);
    Load16Le16(m, 10, h.chunkHdrSz);
    Load32Le32(m, 12, h.blkSz);
    Load32Le32(m, 16, h.totalBlks);
    Load32Le32(m, 20, h.totalChunks);
    Load32Le32(m, 24, h.checksum);
  }

  /** A printed header is skipped to its end exactly when it is the 28 bytes the writer knows; of a longer one, the
      first chunk is looked for as many bytes too late as the header has more. */
  lemma {:induction false} HeaderSkipExact(h: Header)
    ensures FirstChunk(h) == |EncodeHeader(h)| <==> h.fileHdrSz == 28
    ensures h.fileHdrSz >= 28 ==> |EncodeHeader(h)| == h.fileHdrSz
    ensures h.fileHdrSz >= 28 ==> FirstChunk(h) - |EncodeHeader(h)| == h.fileHdrSz - 28
    ensures h.fileHdrSz < 28 ==> |EncodeHeader(h)| == 28 && FirstChunk(h) == h.fileHdrSz
  {
  }

  /** A printed chunk with a header of 12 bytes or more has the size the format gives it. */
  lemma {:induction false} PrintedLen(h: Header, c: Chunk)
    ensures h.chunkHdrSz >= 12 ==> |EncodeChunk(h, c)| == h.chunkHdrSz + |c.body|
    ensures h.chunkHdrSz < 12 ==> |EncodeChunk(h, c)| == 12 + |c.body|
  {
  }

  /** After this chunk the cursor stands at the end of what was printed. */
  predicate InStep(h: Header, c: Chunk) {
    c.kind == CRC32 ==> DataSize(h, c.blocks) == 0
  }

  lemma {:induction false} ChunkParts(m: Memory, h: Header, p: nat, c: Chunk)
    requires Holds(m, p, EncodeChunk(h, c))
    ensures Holds(m, p, Le16(c.kind)) && Holds(m, p + 4, Le32(c.blocks)) && Holds(m, p + 8, Le32(c.total))
    ensures Holds(m, p + ChunkHeaderLen(h), c.body)
  {
    var pad := Zeros(ChunkHeaderLen(h) - CHUNK_HEADER_LEN);
    var s4 := pad + c.body;
    var s3 := Le32(c.total) + s4;
    var s2 := Le32(c.blocks) + s3;
    HoldsSplit(m, p, Le16(c.kind), Le16(0) + s2);
    HoldsSplit(m, p + 2, Le16(0), s2);
    HoldsSplit(m, p + 4, Le32(c.blocks), s3);
    HoldsSplit(m, p + 8, Le32(c.total), s4);
    HoldsSplit(m, p + 12, pad, c.body);
  }

  lemma {:induction false} ChunkFields(m: Memory, h: Header, p: nat, c: Chunk)
    requires Holds(m, p, EncodeChunk(h, c))
    ensures Load16(m, p) == c.kind && Load32(m, p + 4) == c.blocks && Load32(m, p + 8) == c.total
    ensures Holds(m, p + ChunkHeaderLen(h), c.body)
  {
    ChunkParts(m, h, p, c);
    Load16Le16(m, p, c.kind);
    Load32Le32(m, p + 4, c.blocks);
    Load32Le32(m, p + 8, c.total);
  }

  /** A printed chunk is read back, and is left in step exactly when it is no CRC32 chunk of non-zero extent. */
  lemma {:induction false} ChunkRoundTrip(m: Memory, h: Header, p: nat, c: Chunk)
    requires Holds(m, p, EncodeChunk(h, c)) && |c.body| == BodyLen(h, c.kind, c.blocks)
    ensures ChunkAt(m, h, p) == c
    ensures NextAt(m, h, p) == p + |EncodeChunk(h, c)| <==> InStep(h, c)
  {
    ChunkFields(m, h, p, c);
    HoldsBytes(m, p + ChunkHeaderLen(h), c.body);
  }

  lemma {:induction false} HoldsChunk(m: Memory, h: Header, p: nat, cs: seq<Chunk>, n: nat, k: nat)
    requires k < n <= |cs| && Holds(m, p, EncodeChunks(h, cs, n))
    ensures Holds(m, p + |EncodeChunks(h, cs, k)|, EncodeChunk(h, cs[k]))
  {
    HoldsSplit(m, p, EncodeChunks(h, cs, n - 1), EncodeChunk(h, cs[n - 1]));
    if k < n - 1 { HoldsChunk(m, h, p, cs, n - 1, k); }
  }

  ghost predicate Printable(h: Header, cs: seq<Chunk>) {
    && h.fileHdrSz == SPARSE_HEADER_LEN
    && h.totalChunks == |cs|
    && forall k :: 0 <= k < |cs| ==> |cs[k].body| == BodyLen(h, cs[k].kind, cs[k].blocks) && InStep(h, cs[k])
  }

  /** Offset of chunk `k` in a printed image. */
  function Offset(h: Header, cs: seq<Chunk>, k: nat): nat
    requires k <= |cs|
  {
    SPARSE_HEADER_LEN + |EncodeChunks(h, cs, k)|
  }

  lemma {:induction false} ReadBack(m: Memory, h: Header, cs: seq<Chunk>, k: nat)
    requires Printable(h, cs) && Holds(m, 0, Encode(h, cs)) && k < |cs|
    ensures ChunkAt(m, h, Offset(h, cs, k)) == cs[k]
    ensures NextAt(m, h, Offset(h, cs, k)) == Offset(h, cs, k + 1)
  {
    HoldsSplit(m, 0, EncodeHeader(h), EncodeChunks(h, cs, |cs|));
    HoldsChunk(m, h, SPARSE_HEADER_LEN, cs, |cs|, k);
    ChunkRoundTrip(m, h, Offset(h, cs, k), cs[k]);
  }

  lemma {:induction false} CursorStep(m: Memory, h: Header, cs: seq<Chunk>, k: nat)
    requires Printable(h, cs) && Holds(m, 0, Encode(h, cs)) && k < |cs| && Cursor(m, h, k) == Offset(h, cs, k)
    ensures Cursor(m, h, k + 1) == Offset(h, cs, k + 1)
  {
    ReadBack(m, h, cs, k);
  }

  lemma {:induction false} CursorAt(m: Memory, h: Header, cs: seq<Chunk>, k: nat)
    requires Printable(h, cs) && Holds(m, 0, Encode(h, cs)) && k <= |cs|
    ensures Cursor(m, h, k) == Offset(h, cs, k)
  {
    if k > 0 {
      CursorAt(m, h, cs, k - 1);
      CursorStep(m, h, cs, k - 1);
    }
  }

  /** Decoding inverts printing, and the walk ends exactly at the last printed byte. */
  lemma {:induction false} RoundTrip(m: Memory, h: Header, cs: seq<Chunk>)
    requires Printable(h, cs) && Holds(m, 0, Encode(h, cs))
    ensures HeaderAt(m) == h
    ensures Decode(m, h) == cs
    ensures Cursor(m, h, h.totalChunks) == |Encode(h, cs)|
  {
    HoldsSplit(m, 0, EncodeHeader(h), EncodeChunks(h, cs, |cs|));
    HeaderRoundTrip(m, h);
    forall k | 0 <= k < |cs| ensures Decode(m, h)[k] == cs[k] {
      CursorAt(m, h, cs, k);
      ReadBack(m, h, cs, k);
    }
    CursorAt(m, h, cs, |cs|);
  }

  function TotalSizes(cs: seq<Chunk>, k: nat): nat
    requires k <= |cs|
  {
    if k == 0 then 0 else TotalSizes(cs, k - 1) + cs[k - 1].total
  }

  /** Chunks whose `total_sz` is what the format makes it. */
  ghost predicate RightTotals(h: Header, cs: seq<Chunk>) {
    h.chunkHdrSz >= 12 && forall i :: 0 <= i < |cs| ==> cs[i].total == h.chunkHdrSz + |cs[i].body|
  }

  lemma {:induction false} PrintedTotals(h: Header, cs: seq<Chunk>, k: nat)
    requires k <= |cs| && RightTotals(h, cs)
    ensures |EncodeChunks(h, cs, k)| == TotalSizes(cs, k)
  {
    if k > 0 {
      PrintedTotals(h, cs, k - 1);
      PrintedLen(h, cs[k - 1]);
    }
  }

  /** The cursor at chunk `k` is the file header plus the `total_sz` of the chunks before it. */
  lemma {:induction false} CursorSumsTotals(m: Memory, h: Header, cs: seq<Chunk>, k: nat)
    requires Printable(h, cs) && Holds(m, 0, Encode(h, cs)) && k <= |cs| && RightTotals(h, cs)
    ensures Cursor(m, h, k) == h.fileHdrSz + TotalSizes(cs, k)
  {
    CursorAt(m, h, cs, k);
    PrintedTotals(h, cs, k);
  }

  // ---------------------------------------------------------------- what the walk reads

  ghost predicate SameBelow(m: Memory, m': Memory, n: nat) {
    forall i: nat :: i < n ==> m(i) == m'(i)
  }

  lemma {:induction false} ChunkReads(m: Memory, m': Memory, h: Header, p: nat)
    requires SameBelow(m, m', NextAt(m, h, p))
    ensures ChunkAt(m, h, p) == ChunkAt(m', h, p) && NextAt(m, h, p) == NextAt(m', h, p)
  {
    var n := BodyLen(h, Load16(m, p), Load32(m, p + 4));
    assert Load16(m, p) == Load16(m', p);
    assert Bytes(m, p + ChunkHeaderLen(h), n) == Bytes(m', p + ChunkHeaderLen(h), n);
  }

  lemma {:induction false} CursorMonotone(m: Memory, h: Header, j: nat, k: nat)
    requires j <= k
    ensures Cursor(m, h, j) + CHUNK_HEADER_LEN * (k - j) <= Cursor(m, h, k)
  {
    if j < k { CursorMonotone(m, h, j, k - 1); }
  }

  lemma {:induction false} CursorReads(m: Memory, m': Memory, h: Header, k: nat)
    requires SameBelow(m, m', Cursor(m, h, k))
    ensures Cursor(m, h, k) == Cursor(m', h, k)
  {
    if k > 0 {
      CursorMonotone(m, h, k - 1, k);
      CursorReads(m, m', h, k - 1);
      ChunkReads(m, m', h, Cursor(m, h, k - 1));
    }
  }

  /** Nothing at or beyond the final cursor (or the 28 header bytes) has any influence on what is decoded. */
  lemma {:induction false} WalkReadsBelowEnd(m: Memory, m': Memory)
    requires SameBelow(m, m', SPARSE_HEADER_LEN)
    requires var h := HeaderAt(m); SameBelow(m, m', Cursor(m, h, h.totalChunks))
    ensures HeaderAt(m) == HeaderAt(m')
    ensures Decode(m, HeaderAt(m)) == Decode(m', HeaderAt(m'))
  {
    var h := HeaderAt(m);
    forall k | 0 <= k < h.totalChunks ensures Decode(m, h)[k] == Decode(m', h)[k] {
      ChunkReadsBelowEnd(m, m', h, k, h.totalChunks);
    }
  }

  lemma {:induction false} ChunkReadsBelowEnd(m: Memory, m': Memory, h: Header, k: nat, n: nat)
    requires k < n && SameBelow(m, m', Cursor(m, h, n))
    ensures ChunkAt(m, h, Cursor(m, h, k)) == ChunkAt(m', h, Cursor(m', h, k))
  {
    CursorMonotone(m, h, k, k + 1);
    CursorMonotone(m, h, k + 1, n);
    CursorReads(m, m', h, k);
    ChunkReads(m, m', h, Cursor(m, h, k));
  }
}
