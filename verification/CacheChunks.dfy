/** Value-level model of the write-through cache's chunk table: geometry, per-block validity,
    and what it means for the table to agree with an origin image. */
module CacheChunks {
  import opened Bytes
  import opened Arithmetic

  /** One cache slot.  A block is trusted only when `mem` is resident, `valid[block]` is set and the bitmap
      was filled in the current generation. */
  datatype Chunk = Chunk(mem: Option<seq<byte>>, generation: nat, validityGeneration: nat, valid: seq<bool>,
                         lastAccess: nat)

  datatype Geometry = Geometry(size: nat, block: nat, chunkBytes: nat) {

    predicate Ok() {
      && 0 < size <= U64_MAX && 0 < block && 0 < chunkBytes <= U64_MAX
      && size % block == 0 && chunkBytes % block == 0
    }

    /** `size.div_ceil(chunk_bytes)`. */
    function Count(): nat
      requires Ok()
    {
      CeilQuot(size, chunkBytes)
    }

    function Start(i: nat): nat {
      i * chunkBytes
    }

    /** The part of a device image that chunk `i` caches; the last chunk may be short. */
    function View(image: seq<byte>, i: nat): seq<byte> {
      image[Min(Start(i), |image|)..Min(Start(i) + chunkBytes, |image|)]
    }
  }

  /** `generation.wrapping_add(1).max(1)`. */
  function NextGeneration(g: nat): nat {
    Max((g + 1) % (U64_MAX + 1), 1)
  }

  function Invalidated(c: Chunk): Chunk {
    c.(generation := NextGeneration(c.generation), valid := seq(|c.valid|, _ => false))
  }

  /** The byte at offset `r` of the chunk is trusted. */
  predicate Live(c: Chunk, r: nat, block: nat)
    requires 0 < block
  {
    c.mem.Some? && c.validityGeneration == c.generation && Quot(r, block) < |c.valid| && c.valid[Quot(r, block)]
  }

  predicate Shaped(g: Geometry, c: Chunk, len: nat)
  {
    |c.valid| * g.block == len && (c.mem.Some? ==> |c.mem.value| == g.chunkBytes)
  }

  /** Every trusted byte of the chunk equals the image's byte. */
  ghost predicate Agrees(c: Chunk, view: seq<byte>, block: nat)
    requires 0 < block
    requires c.mem.Some? ==> |view| <= |c.mem.value|
  {
    forall r :: 0 <= r < |view| && Live(c, r, block) ==> c.mem.value[r] == view[r]
  }

  ghost predicate ShapedTable(g: Geometry, chunks: seq<Chunk>)
  {
    && g.Ok() && |chunks| == g.Count()
    && forall i :: 0 <= i < |chunks| ==> Shaped(g, chunks[i], ChunkLen(g, i))
  }

  function ChunkLen(g: Geometry, i: nat): nat {
    Min(g.chunkBytes, SatSub(g.size, g.Start(i)))
  }

  /** The whole table agrees with a device image. */
  ghost predicate Coherent(g: Geometry, chunks: seq<Chunk>, image: seq<byte>)
    requires ShapedTable(g, chunks) && |image| == g.size
  {
    forall i :: 0 <= i < |chunks| ==> ChunkAgrees(g, chunks, image, i)
  }

  ghost predicate ChunkAgrees(g: Geometry, chunks: seq<Chunk>, image: seq<byte>, i: nat)
    requires ShapedTable(g, chunks) && |image| == g.size && i < |chunks|
  {
    assert Shaped(g, chunks[i], ChunkLen(g, i));
    Agrees(chunks[i], g.View(image, i), g.block)
  }

  /** The chunk and offset that hold device byte `p` exist, and `p` decomposes into them. */
  lemma Locate(g: Geometry, p: nat)
    requires g.Ok() && p < g.size
    ensures Quot(p, g.chunkBytes) < g.Count()
    ensures p == g.Start(Quot(p, g.chunkBytes)) + p % g.chunkBytes
    ensures 0 <= p % g.chunkBytes < g.chunkBytes
  {
    var c, q := g.chunkBytes, p / g.chunkBytes;
    assert p == c * q + p % c;
    if q >= g.Count() {
      CeilDiv(g.size, c);
      MulLe(g.Count(), q, c);
      assert false;
    }
  }

  /** Chunks tile the device: every chunk starts inside it. */
  lemma ChunkStartsInside(g: Geometry, i: nat)
    requires g.Ok() && i < g.Count()
    ensures g.Start(i) < g.size
  {
    CeilDiv(g.size, g.chunkBytes);
    MulLe(i + 1, g.Count(), g.chunkBytes);
    assert (i + 1) * g.chunkBytes == i * g.chunkBytes + g.chunkBytes;
  }

  lemma BlockOf(r: nat, block: nat, blocks: nat)
    requires 0 < block && r < blocks * block
    ensures Quot(r, block) < blocks
    ensures Quot(r, block) * block <= r < Quot(r, block) * block + block
  {
    var q := Quot(r, block);
    assert r == block * q + r % block;
    if q >= blocks {
      MulLe(blocks, q, block);
    }
  }

  /** An overwrite outside chunk `i` leaves its view alone. */
  lemma ViewOutside(g: Geometry, image: seq<byte>, off: nat, piece: seq<byte>, i: nat)
    requires off + |piece| <= |image|
    requires off + |piece| <= g.Start(i) || g.Start(i) + g.chunkBytes <= off
    ensures g.View(Splice(image, off, piece), i) == g.View(image, i)
  {
    forall k | 0 <= k < |image|
      ensures Splice(image, off, piece)[k] == if off <= k < off + |piece| then piece[k - off] else image[k]
    {
    }
  }

  lemma ViewOfSplice(image: seq<byte>, lo: nat, hi: nat, off: nat, piece: seq<byte>)
    requires lo <= off && off + |piece| <= hi <= |image|
    ensures Splice(image, off, piece)[lo..hi] == Splice(image[lo..hi], off - lo, piece)
  {
    var v, w := Splice(image, off, piece)[lo..hi], Splice(image[lo..hi], off - lo, piece);
    forall k | 0 <= k < |v| ensures v[k] == w[k] {
      assert v[k] == Splice(image, off, piece)[lo + k];
    }
  }

  /** An overwrite inside chunk `i` is an overwrite of its view. */
  lemma ViewInside(g: Geometry, image: seq<byte>, off: nat, piece: seq<byte>, i: nat)
    requires off + |piece| <= |image|
    requires g.Start(i) <= off && off + |piece| <= g.Start(i) + g.chunkBytes
    ensures off - g.Start(i) + |piece| <= |g.View(image, i)|
    ensures g.View(Splice(image, off, piece), i) == Splice(g.View(image, i), off - g.Start(i), piece)
  {
    ViewOfSplice(image, Min(g.Start(i), |image|), Min(g.Start(i) + g.chunkBytes, |image|), off, piece);
  }

  /** `mark_fully_covered_blocks` as a value: the bitmap restarts when it is from an older generation, then
      every block that `relative..relative + len` covers completely becomes valid. */
  function Marked(c: Chunk, block: nat, relative: nat, len: nat): Chunk
    requires 0 < block
  {
    var base := if c.validityGeneration != c.generation then seq(|c.valid|, _ => false) else c.valid;
    var first, last := CeilQuot(relative, block), Quot(relative + len, block);
    c.(validityGeneration := c.generation,
       valid := seq(|c.valid|, b requires 0 <= b < |base| => base[b] || first <= b < last))
  }

  /** Writing the same bytes to a chunk and to its view, then marking, keeps them in agreement. */
  lemma WriteAgrees(c: Chunk, view: seq<byte>, block: nat, rel: nat, piece: seq<byte>, stamp: nat)
    requires 0 < block && c.mem.Some? && |view| <= |c.mem.value| && rel + |piece| <= |view|
    requires |c.valid| * block == |view|
    requires Agrees(c, view, block)
    ensures Agrees(Marked(c.(mem := Some(Splice(c.mem.value, rel, piece)), lastAccess := stamp), block, rel, |piece|),
                   Splice(view, rel, piece), block)
  {
    var d := Marked(c.(mem := Some(Splice(c.mem.value, rel, piece)), lastAccess := stamp), block, rel, |piece|);
    forall r | 0 <= r < |view| && Live(d, r, block) ensures d.mem.value[r] == Splice(view, rel, piece)[r] {
      LiveAfterMark(c, block, rel, |piece|, r, d);
    }
  }

  /** A byte trusted after marking was trusted before or lies in the marked range. */
  lemma LiveAfterMark(c: Chunk, block: nat, rel: nat, len: nat, r: nat, d: Chunk)
    requires 0 < block && c.mem.Some? && r < |c.valid| * block
    requires d.valid == Marked(c, block, rel, len).valid && Live(d, r, block)
    ensures Live(c, r, block) || rel <= r < rel + len
  {
    var b := Quot(r, block);
    BlockOf(r, block, |c.valid|);
    if CeilQuot(rel, block) <= b < Quot(rel + len, block) {
      CoveredBlock(b, block, rel, len);
    }
  }

  lemma CoveredBlock(b: nat, block: nat, rel: nat, len: nat)
    requires 0 < block && CeilQuot(rel, block) <= b < Quot(rel + len, block)
    ensures rel <= b * block && b * block + block <= rel + len
  {
    CeilDiv(rel, block);
    MulLe(CeilQuot(rel, block), b, block);
    NextMultiple(b, Quot(rel + len, block), block);
    assert rel + len == block * Quot(rel + len, block) + (rel + len) % block;
  }

  /** One chunk-sized step of a table update: chunk `i` takes the piece, the others are untouched. */
  lemma StepCoherent(g: Geometry, chunks: seq<Chunk>, image: seq<byte>, i: nat, c: Chunk, off: nat, piece: seq<byte>)
    requires ShapedTable(g, chunks) && |image| == g.size && Coherent(g, chunks, image)
    requires i < |chunks| && off + |piece| <= g.size
    requires g.Start(i) <= off && off + |piece| <= g.Start(i) + g.chunkBytes
    requires Shaped(g, c, ChunkLen(g, i))
    requires Agrees(c, g.View(Splice(image, off, piece), i), g.block)
    ensures ShapedTable(g, chunks[i := c])
    ensures Coherent(g, chunks[i := c], Splice(image, off, piece))
  {
    var after, next := chunks[i := c], Splice(image, off, piece);
    forall j | 0 <= j < |chunks| ensures ChunkAgrees(g, after, next, j) {
      if j < i {
        MulLe(j + 1, i, g.chunkBytes);
        assert (j + 1) * g.chunkBytes == g.Start(j) + g.chunkBytes;
        ViewOutside(g, image, off, piece, j);
      } else if i < j {
        MulLe(i + 1, j, g.chunkBytes);
        assert (i + 1) * g.chunkBytes == g.Start(i) + g.chunkBytes;
        ViewOutside(g, image, off, piece, j);
      }
      assert ChunkAgrees(g, chunks, image, j);
    }
  }

  /** A chunk with nothing trusted agrees with everything. */
  lemma NothingLive(c: Chunk, view: seq<byte>, block: nat)
    requires 0 < block && (c.mem.Some? ==> |view| <= |c.mem.value|)
    requires c.mem.None? || forall b :: 0 <= b < |c.valid| ==> !c.valid[b]
    ensures Agrees(c, view, block)
  {
  }

  /** The number of resident chunks. */
  function Residents(chunks: seq<Chunk>): nat {
    if |chunks| == 0 then 0 else Residents(chunks[..|chunks| - 1]) + if chunks[|chunks| - 1].mem.Some? then 1 else 0
  }

  ghost predicate SameResidency(a: seq<Chunk>, b: seq<Chunk>) {
    |a| == |b| && forall i :: 0 <= i < |a| ==> a[i].mem.Some? == b[i].mem.Some?
  }

  lemma {:induction false} SameResidents(a: seq<Chunk>, b: seq<Chunk>)
    requires SameResidency(a, b)
    ensures Residents(a) == Residents(b)
  {
    if |a| > 0 {
      SameResidents(a[..|a| - 1], b[..|b| - 1]);
    }
  }

  /** Changing one slot changes the count by what that slot contributes. */
  lemma {:induction false} ResidentsUpdate(chunks: seq<Chunk>, i: nat, c: Chunk)
    requires i < |chunks|
    ensures Residents(chunks[i := c]) ==
              Residents(chunks) - (if chunks[i].mem.Some? then 1 else 0) + (if c.mem.Some? then 1 else 0)
  {
    var n := |chunks| - 1;
    if i == n {
      assert chunks[i := c][..n] == chunks[..n];
    } else {
      assert chunks[i := c][..n] == chunks[..n][i := c];
      ResidentsUpdate(chunks[..n], i, c);
    }
  }

  lemma {:induction false} ResidentsBound(chunks: seq<Chunk>, k: nat)
    requires k <= |chunks|
    ensures Residents(chunks) <= |chunks|
    ensures (forall i :: 0 <= i < k ==> chunks[i].mem.Some?) ==> k <= Residents(chunks)
    ensures (forall i :: 0 <= i < |chunks| ==> chunks[i].mem.None?) ==> Residents(chunks) == 0
  {
    if |chunks| > 0 {
      ResidentsBound(chunks[..|chunks| - 1], Min(k, |chunks| - 1));
    }
  }

  /** Pigeonhole: if the first empty slot is `i` and one more chunk still fits in the device, slot `i` is a
      full-length chunk. */
  lemma FirstEmptyIsFull(g: Geometry, chunks: seq<Chunk>, i: nat)
    requires g.Ok() && |chunks| == g.Count() && i < |chunks|
    requires forall j :: 0 <= j < i ==> chunks[j].mem.Some?
    requires (Residents(chunks) + 1) * g.chunkBytes <= g.size
    ensures g.Start(i) + g.chunkBytes <= g.size
  {
    ResidentsBound(chunks, i);
    MulLe(i + 1, Residents(chunks) + 1, g.chunkBytes);
    assert (i + 1) * g.chunkBytes == g.Start(i) + g.chunkBytes;
  }

  /** Every trusted byte is the same in both images. */
  ghost predicate CleanUnderCache(g: Geometry, chunks: seq<Chunk>, readable: seq<byte>, durable: seq<byte>)
    requires ShapedTable(g, chunks) && |readable| == |durable| == g.size
  {
    forall i, r :: 0 <= i < |chunks| && 0 <= r < |g.View(readable, i)| && Live(chunks[i], r, g.block)
      ==> g.View(readable, i)[r] == g.View(durable, i)[r]
  }

  /** A coherent table survives a fall-back to the durable image exactly when no trusted byte is dirty. */
  lemma FallbackExact(g: Geometry, chunks: seq<Chunk>, readable: seq<byte>, durable: seq<byte>)
    requires ShapedTable(g, chunks) && |readable| == |durable| == g.size
    requires Coherent(g, chunks, readable)
    ensures Coherent(g, chunks, durable) <==> CleanUnderCache(g, chunks, readable, durable)
  {
    forall i | 0 <= i < |chunks|
      ensures ChunkAgrees(g, chunks, durable, i) <==>
              forall r :: 0 <= r < |g.View(readable, i)| && Live(chunks[i], r, g.block)
                ==> g.View(readable, i)[r] == g.View(durable, i)[r]
    {
      assert ChunkAgrees(g, chunks, readable, i);
      assert |g.View(readable, i)| == |g.View(durable, i)|;
    }
  }

  /** Nothing in the chunk is trusted. */
  ghost predicate Untrusted(c: Chunk) {
    c.mem.None? || forall b :: 0 <= b < |c.valid| ==> !c.valid[b]
  }

  /** A resident chunk invalidated; an empty slot has nothing to distrust. */
  function Distrusted(c: Chunk): (d: Chunk)
    ensures Untrusted(d)
  {
    if c.mem.Some? then Invalidated(c) else c
  }

  /** Slot by slot, `after` is `before` (up to access times) or trusts nothing. */
  ghost predicate Weaker(before: seq<Chunk>, after: seq<Chunk>) {
    && |before| == |after|
    && forall i :: 0 <= i < |before| ==>
         before[i].(lastAccess := 0) == after[i].(lastAccess := 0) || Untrusted(after[i])
  }

  /** Dropping trust never makes a table wrong. */
  lemma WeakerKeeps(g: Geometry, before: seq<Chunk>, after: seq<Chunk>, readable: seq<byte>, durable: seq<byte>)
    requires ShapedTable(g, before) && ShapedTable(g, after) && Weaker(before, after)
    requires |readable| == |durable| == g.size
    ensures Coherent(g, before, readable) ==> Coherent(g, after, readable)
    ensures CleanUnderCache(g, before, readable, durable) ==> CleanUnderCache(g, after, readable, durable)
  {
    if Coherent(g, before, readable) {
      forall i | 0 <= i < |after| ensures ChunkAgrees(g, after, readable, i) {
        assert ChunkAgrees(g, before, readable, i);
        assert forall r: nat :: Live(after[i], r, g.block) ==>
                                  Live(before[i], r, g.block) && before[i].mem == after[i].mem;
      }
    }
    assert forall i, r: nat :: 0 <= i < |after| && Live(after[i], r, g.block) ==> Live(before[i], r, g.block);
  }

  /** Device byte `p` is trusted by the table. */
  predicate Trusted(g: Geometry, chunks: seq<Chunk>, p: nat)
    requires 0 < g.block && 0 < g.chunkBytes
  {
    Quot(p, g.chunkBytes) < |chunks| && Live(chunks[Quot(p, g.chunkBytes)], p % g.chunkBytes, g.block)
  }

  ghost predicate RangeTrusted(g: Geometry, chunks: seq<Chunk>, off: nat, len: nat)
    requires 0 < g.block && 0 < g.chunkBytes
  {
    forall p :: off <= p < off + len ==> Trusted(g, chunks, p)
  }

  /** Bytes `r..r + n` of a chunk are trusted. */
  ghost predicate PieceLive(c: Chunk, r: nat, n: nat, block: nat)
    requires 0 < block
  {
    forall x :: r <= x < r + n ==> Live(c, x, block)
  }

  /** Trust in a device range inside one chunk is trust in the bytes of that chunk. */
  lemma TrustedPiece(g: Geometry, chunks: seq<Chunk>, p: nat, n: nat, i: nat, r: nat)
    requires 0 < g.block && 0 < g.chunkBytes && i < |chunks|
    requires Quot(p, g.chunkBytes) == i && p % g.chunkBytes == r && r + n <= g.chunkBytes
    ensures RangeTrusted(g, chunks, p, n) <==> PieceLive(chunks[i], r, n, g.block)
  {
    if RangeTrusted(g, chunks, p, n) {
      forall x | r <= x < r + n ensures Live(chunks[i], x, g.block) {
        SameChunk(p, x - r, g.chunkBytes);
        assert Trusted(g, chunks, p + (x - r));
      }
    }
    if PieceLive(chunks[i], r, n, g.block) {
      forall q | p <= q < p + n ensures Trusted(g, chunks, q) {
        SameChunk(p, q - p, g.chunkBytes);
        assert Live(chunks[i], r + (q - p), g.block);
      }
    }
  }

  lemma ViewSlice(g: Geometry, image: seq<byte>, i: nat, r: nat, n: nat)
    requires g.Start(i) + r + n <= |image| && r + n <= g.chunkBytes
    ensures r + n <= |g.View(image, i)|
    ensures g.View(image, i)[r..r + n] == image[g.Start(i) + r..g.Start(i) + r + n]
  {
    SliceOfSlice(image, g.Start(i), Min(g.Start(i) + g.chunkBytes, |image|), r, n);
  }

  lemma AgreeingSlice(c: Chunk, view: seq<byte>, block: nat, r: nat, n: nat)
    requires 0 < block && c.mem.Some? && r + n <= |view| <= |c.mem.value|
    requires Agrees(c, view, block) && PieceLive(c, r, n, block)
    ensures c.mem.value[r..r + n] == view[r..r + n]
  {
    var mem := c.mem.value;
    forall x | r <= x < r + n ensures mem[x] == view[x] {
      assert Live(c, x, block);
    }
  }

  /** A chunk-local run of trusted bytes reads back the image. */
  lemma LivePiece(g: Geometry, chunks: seq<Chunk>, image: seq<byte>, p: nat, n: nat, i: nat, r: nat)
    requires ShapedTable(g, chunks) && |image| == g.size && Coherent(g, chunks, image)
    requires i < |chunks| && p == g.Start(i) + r && p + n <= g.size && r + n <= g.chunkBytes
    requires PieceLive(chunks[i], r, n, g.block) && chunks[i].mem.Some?
    ensures |chunks[i].mem.value| == g.chunkBytes
    ensures chunks[i].mem.value[r..r + n] == image[p..p + n]
  {
    assert Shaped(g, chunks[i], ChunkLen(g, i));
    assert ChunkAgrees(g, chunks, image, i);
    ViewSlice(g, image, i, r, n);
    AgreeingSlice(chunks[i], g.View(image, i), g.block, r, n);
  }

  /** The blocks a byte range touches are `rel / block .. ceil((rel + n) / block)`; the range is trusted exactly
      when all of them are. */
  lemma TouchedBlocks(c: Chunk, rel: nat, n: nat, block: nat)
    requires 0 < block && 0 < n && rel + n <= |c.valid| * block
    requires c.mem.Some? && c.validityGeneration == c.generation
    ensures CeilQuot(rel + n, block) <= |c.valid|
    ensures PieceLive(c, rel, n, block) <==> BlocksValid(c, Quot(rel, block), CeilQuot(rel + n, block))
  {
    LastTouched(rel + n, block, |c.valid|);
    if PieceLive(c, rel, n, block) {
      TouchedAreValid(c, rel, n, block);
    }
    if BlocksValid(c, Quot(rel, block), CeilQuot(rel + n, block)) {
      forall x | rel <= x < rel + n ensures Live(c, x, block) {
        ByteTouches(x, rel, n, block);
      }
    }
  }

  ghost predicate BlocksValid(c: Chunk, first: nat, last: nat) {
    last <= |c.valid| && forall b :: first <= b < last ==> c.valid[b]
  }

  lemma TouchedAreValid(c: Chunk, rel: nat, n: nat, block: nat)
    requires 0 < block && 0 < n && (rel + n + block - 1) / block <= |c.valid|
    requires PieceLive(c, rel, n, block)
    ensures BlocksValid(c, Quot(rel, block), CeilQuot(rel + n, block))
  {
    forall b | Quot(rel, block) <= b < CeilQuot(rel + n, block) ensures c.valid[b] {
      TouchedIsValid(c, rel, n, block, b);
    }
  }

  lemma TouchedIsValid(c: Chunk, rel: nat, n: nat, block: nat, b: nat)
    requires 0 < block && 0 < n && Quot(rel, block) <= b < CeilQuot(rel + n, block) <= |c.valid|
    requires PieceLive(c, rel, n, block)
    ensures c.valid[b]
  {
    TouchingByte(b, rel, n, block);
    var x := Max(rel, b * block);
    assert Live(c, x, block);
  }

  lemma LastTouched(end: nat, block: nat, blocks: nat)
    requires 0 < block && end <= blocks * block
    ensures (end + block - 1) / block <= blocks
  {
    CeilDiv(end, block);
    if blocks < (end + block - 1) / block {
      NextMultiple(blocks, (end + block - 1) / block, block);
    }
  }

  /** Each byte of the range lies in a touched block. */
  lemma ByteTouches(x: nat, rel: nat, n: nat, block: nat)
    requires 0 < block && rel <= x < rel + n
    ensures rel / block <= x / block < (rel + n + block - 1) / block
  {
    CeilDiv(rel + n, block);
    BlockOf(x, block, (rel + n + block - 1) / block);
    BlockOf(rel, block, (rel + n + block - 1) / block);
    if x / block < rel / block {
      NextMultiple(x / block, rel / block, block);
    }
  }

  /** Each touched block holds a byte of the range. */
  lemma TouchingByte(b: nat, rel: nat, n: nat, block: nat)
    requires 0 < block && 0 < n && rel / block <= b < (rel + n + block - 1) / block
    ensures var x := Max(rel, b * block); rel <= x < rel + n && x / block == b
  {
    CeilDiv(rel + n, block);
    NextMultiple(b, (rel + n + block - 1) / block, block);
    assert rel == block * (rel / block) + rel % block;
    if b * block <= rel {
      if rel / block < b {
        NextMultiple(rel / block, b, block);
      }
    } else {
      DivUnique(b * block, block, b, 0);
    }
  }

  /** `after` is `before` with some least-recently-used residents released: no survivor was accessed earlier
      than a released chunk. */
  ghost predicate LruReleased(before: seq<Chunk>, after: seq<Chunk>) {
    && |before| == |after|
    && (forall i :: 0 <= i < |before| ==> after[i] == before[i] || (after[i].mem.None? && before[i].mem.Some?))
    && (forall i, j :: 0 <= i < |before| && 0 <= j < |before| && after[i] != before[i] && after[j].mem.Some?
          ==> before[i].lastAccess <= after[j].lastAccess)
  }

  lemma LruStep(before: seq<Chunk>, after: seq<Chunk>, k: nat, c: Chunk)
    requires LruReleased(before, after) && k < |after| && after[k].mem.Some? && c.mem.None?
    requires forall i :: 0 <= i < |after| && after[i].mem.Some? ==> after[k].lastAccess <= after[i].lastAccess
    ensures LruReleased(before, after[k := c])
  {
  }

  lemma LruWeaker(before: seq<Chunk>, after: seq<Chunk>)
    requires LruReleased(before, after)
    ensures Weaker(before, after)
  {
  }

  /** The tables differ in access times only. */
  ghost predicate SameButAccess(before: seq<Chunk>, after: seq<Chunk>) {
    |before| == |after| && forall i :: 0 <= i < |before| ==> before[i].(lastAccess := 0) == after[i].(lastAccess := 0)
  }

  lemma TouchOnly(before: seq<Chunk>, after: seq<Chunk>)
    requires SameButAccess(before, after)
    ensures Weaker(before, after) && SameResidency(before, after)
  {
    assert forall i :: 0 <= i < |before| ==> before[i].(lastAccess := 0).mem == after[i].(lastAccess := 0).mem;
  }

  lemma TouchThenWeaker(before: seq<Chunk>, mid: seq<Chunk>, after: seq<Chunk>)
    requires SameButAccess(before, mid) && Weaker(mid, after)
    ensures Weaker(before, after)
  {
  }

  /** Reading `n` bytes at `p` out of the one chunk that holds them, when the surrounding range is trusted. */
  lemma TrustedRead(g: Geometry, chunks: seq<Chunk>, image: seq<byte>, off: nat, len: nat, p: nat, n: nat, i: nat,
                    r: nat)
    requires ShapedTable(g, chunks) && |image| == g.size && Coherent(g, chunks, image)
    requires RangeTrusted(g, chunks, off, len) && off <= p && p + n <= off + len <= g.size
    requires i < |chunks| && chunks[i].mem.Some? && p == g.Start(i) + r && r < g.chunkBytes && r + n <= g.chunkBytes
    ensures |chunks[i].mem.value| == g.chunkBytes
    ensures chunks[i].mem.value[r..r + n] == image[p..p + n]
  {
    DivUnique(p, g.chunkBytes, i, r);
    TrustedPiece(g, chunks, p, n, i, r);
    LivePiece(g, chunks, image, p, n, i, r);
  }

  ghost predicate SameOutside(a: seq<byte>, b: seq<byte>, off: nat, len: nat) {
    |a| == |b| && forall k :: 0 <= k < |a| && !(off <= k < off + len) ==> a[k] == b[k]
  }

  /** A change confined to a range is harmless once every chunk the range touches has lost its trust. */
  lemma ConfinedChange(g: Geometry, before: seq<Chunk>, after: seq<Chunk>, r0: seq<byte>, r1: seq<byte>,
                       d0: seq<byte>, d1: seq<byte>, off: nat, len: nat)
    requires ShapedTable(g, before) && ShapedTable(g, after) && Weaker(before, after)
    requires |r0| == |d0| == g.size && SameOutside(r0, r1, off, len) && SameOutside(d0, d1, off, len)
    requires forall i :: 0 <= i < |after| && g.Start(i) < off + len && off < g.Start(i) + g.chunkBytes ==>
               Untrusted(after[i])
    ensures Coherent(g, before, r0) ==> Coherent(g, after, r1)
    ensures CleanUnderCache(g, before, r0, d0) ==> CleanUnderCache(g, after, r1, d1)
  {
    WeakerKeeps(g, before, after, r0, d0);
    forall i | 0 <= i < |after| && !Untrusted(after[i])
      ensures g.View(r0, i) == g.View(r1, i) && g.View(d0, i) == g.View(d1, i)
    {
      ViewSameOutside(g, r0, r1, off, len, i);
      ViewSameOutside(g, d0, d1, off, len, i);
    }
    if Coherent(g, before, r0) {
      forall i | 0 <= i < |after| ensures ChunkAgrees(g, after, r1, i) {
        assert ChunkAgrees(g, after, r0, i);
        if Untrusted(after[i]) {
          assert Shaped(g, after[i], ChunkLen(g, i));
          NothingLive(after[i], g.View(r1, i), g.block);
        }
      }
    }
  }

  lemma ViewSameOutside(g: Geometry, a: seq<byte>, b: seq<byte>, off: nat, len: nat, i: nat)
    requires SameOutside(a, b, off, len) && (off + len <= g.Start(i) || g.Start(i) + g.chunkBytes <= off)
    ensures g.View(a, i) == g.View(b, i)
  {
  }

  /** A table that trusts nothing agrees with every image. */
  lemma AllUntrusted(g: Geometry, chunks: seq<Chunk>, readable: seq<byte>, durable: seq<byte>)
    requires ShapedTable(g, chunks) && |readable| == |durable| == g.size
    requires forall i :: 0 <= i < |chunks| ==> Untrusted(chunks[i])
    ensures Coherent(g, chunks, readable) && CleanUnderCache(g, chunks, readable, durable)
  {
    forall i | 0 <= i < |chunks| ensures ChunkAgrees(g, chunks, readable, i) {
      assert Shaped(g, chunks[i], ChunkLen(g, i));
      NothingLive(chunks[i], g.View(readable, i), g.block);
    }
  }

  /** A sync that leaves clean bytes alone cannot disturb a cache over clean bytes. */
  lemma CleanSync(g: Geometry, chunks: seq<Chunk>, r0: seq<byte>, d0: seq<byte>, r1: seq<byte>, d1: seq<byte>)
    requires ShapedTable(g, chunks) && |r0| == |d0| == |r1| == |d1| == g.size
    requires forall i :: 0 <= i < |r1| && r0[i] == d0[i] ==> r1[i] == r0[i] && d1[i] == d0[i]
    requires CleanUnderCache(g, chunks, r0, d0)
    ensures CleanUnderCache(g, chunks, r1, d1)
    ensures Coherent(g, chunks, r0) ==> Coherent(g, chunks, r1)
  {
    forall i, r | 0 <= i < |chunks| && 0 <= r < |g.View(r1, i)| && Live(chunks[i], r, g.block)
      ensures g.View(r1, i)[r] == g.View(r0, i)[r] && g.View(r1, i)[r] == g.View(d1, i)[r]
    {
      assert g.View(r0, i)[r] == g.View(d0, i)[r];
      assert r0[g.Start(i) + r] == d0[g.Start(i) + r];
    }
    if Coherent(g, chunks, r0) {
      forall i | 0 <= i < |chunks| ensures ChunkAgrees(g, chunks, r1, i) {
        assert ChunkAgrees(g, chunks, r0, i);
      }
    }
  }

  /** Cached bytes never exceed the device when only full chunks are resident. */
  lemma CachedWithinDevice(g: Geometry, chunks: seq<Chunk>)
    requires g.Ok() && |chunks| == g.Count()
    requires forall i :: 0 <= i < |chunks| && chunks[i].mem.Some? ==> g.Start(i) + g.chunkBytes <= g.size
    ensures Residents(chunks) * g.chunkBytes <= g.size
  {
    var n := |chunks| - 1;
    CeilDiv(g.size, g.chunkBytes);
    OneLess(|chunks|, g.chunkBytes);
    ChunkStartsInside(g, n);
    if chunks[n].mem.Some? {
      ResidentsBound(chunks, 0);
      MulLe(Residents(chunks), |chunks|, g.chunkBytes);
    } else {
      ResidentsBound(chunks[..n], 0);
      MulLe(Residents(chunks), n, g.chunkBytes);
    }
  }

  /** Chunk `i` either took the piece and marked its blocks, or trusts nothing. */
  predicate TookPiece(before: Chunk, after: Chunk, block: nat, rel: nat, piece: seq<byte>)
    requires 0 < block
  {
    && before.mem.Some? && rel + |piece| <= |before.mem.value|
    && after == Marked(before.(mem := Some(Splice(before.mem.value, rel, piece)), lastAccess := after.lastAccess),
                       block, rel, |piece|)
  }

  lemma PieceStep(g: Geometry, before: seq<Chunk>, image: seq<byte>, i: nat, c: Chunk, p: nat, rel: nat,
                  piece: seq<byte>)
    requires ShapedTable(g, before) && |image| == g.size && i < |before|
    requires p == g.Start(i) + rel && p + |piece| <= g.size && rel + |piece| <= g.chunkBytes
    requires Shaped(g, c, ChunkLen(g, i))
    requires Untrusted(c) || TookPiece(before[i], c, g.block, rel, piece)
    ensures ShapedTable(g, before[i := c])
    ensures Coherent(g, before, image) ==> Coherent(g, before[i := c], Splice(image, p, piece))
  {
    assert ShapedTable(g, before[i := c]);
    if Coherent(g, before, image) {
      ViewInside(g, image, p, piece, i);
      if Untrusted(c) {
        NothingLive(c, g.View(Splice(image, p, piece), i), g.block);
      } else {
        assert Shaped(g, before[i], ChunkLen(g, i));
        assert ChunkAgrees(g, before, image, i);
        WriteAgrees(before[i], g.View(image, i), g.block, rel, piece, c.lastAccess);
      }
      StepCoherent(g, before, image, i, c, p, piece);
    }
  }

  // ---------------------------------------------------------------- promotion

  /** Block `b` of chunk `i` lies completely in the range. */
  predicate BlockInside(g: Geometry, i: nat, b: nat, off: nat, len: nat) {
    off <= g.Start(i) + b * g.block && g.Start(i) + b * g.block + g.block <= off + len
  }

  predicate BlockTrusted(c: Chunk, b: nat) {
    c.validityGeneration == c.generation && b < |c.valid| && c.valid[b]
  }

  /** Every block of a resident chunk that the range covers completely is trusted. */
  ghost predicate Promoted(g: Geometry, chunks: seq<Chunk>, off: nat, len: nat) {
    forall i, b: nat ::
      0 <= i < |chunks| && chunks[i].mem.Some? && b < |chunks[i].valid| && BlockInside(g, i, b, off, len) ==>
        BlockTrusted(chunks[i], b)
  }

  /** A block inside the written range is one that gets marked. */
  lemma InsideIsMarked(c: Chunk, block: nat, rel: nat, len: nat, b: nat)
    requires 0 < block && b < |c.valid| && rel <= b * block && b * block + block <= rel + len
    ensures BlockTrusted(Marked(c, block, rel, len), b)
  {
    var first, last := CeilQuot(rel, block), Quot(rel + len, block);
    CeilDiv(rel, block);
    if b < first {
      NextMultiple(b, first, block);
    }
    assert rel + len == block * last + (rel + len) % block;
    if last <= b {
      MulLe(last, b, block);
    }
  }

  /** A block ends within its chunk. */
  lemma BlockEnds(g: Geometry, chunks: seq<Chunk>, i: nat, b: nat)
    requires ShapedTable(g, chunks) && i < |chunks| && b < |chunks[i].valid|
    ensures b * g.block + g.block <= g.chunkBytes
  {
    assert Shaped(g, chunks[i], ChunkLen(g, i));
    NextMultiple(b, |chunks[i].valid|, g.block);
  }

  /** A block of another chunk that the longer range covers was covered before. */
  lemma OtherChunk(g: Geometry, i: nat, b: nat, index: nat, rel: nat, n: nat, off: nat, done: nat)
    requires i != index && off + done == g.Start(index) + rel && rel + n <= g.chunkBytes
    requires b * g.block + g.block <= g.chunkBytes && 0 < g.block && BlockInside(g, i, b, off, done + n)
    ensures BlockInside(g, i, b, off, done)
  {
    if i < index {
      NextMultiple(i, index, g.chunkBytes);
    } else {
      NextMultiple(index, i, g.chunkBytes);
    }
  }

  /** One chunk's update extends the promoted range to the end of its piece, if the piece starts the range or the
      chunk. */
  lemma PromotedStep(g: Geometry, before: seq<Chunk>, c: Chunk, index: nat, rel: nat, piece: seq<byte>, off: nat,
                     done: nat)
    requires ShapedTable(g, before) && index < |before| && Promoted(g, before, off, done)
    requires off + done == g.Start(index) + rel && rel + |piece| <= g.chunkBytes && (done == 0 || rel == 0)
    requires if before[index].mem.Some? then TookPiece(before[index], c, g.block, rel, piece) else c == before[index]
    ensures Promoted(g, before[index := c], off, done + |piece|)
  {
    var after := before[index := c];
    forall i, b: nat | 0 <= i < |after| && after[i].mem.Some? && b < |after[i].valid| &&
      BlockInside(g, i, b, off, done + |piece|)
      ensures BlockTrusted(after[i], b)
    {
      BlockEnds(g, before, i, b);
      if i != index {
        OtherChunk(g, i, b, index, rel, |piece|, off, done);
      } else {
        TakenBlock(g, before[index], c, index, rel, piece, off, done, b);
      }
    }
  }

  /** A block of the updated chunk that the longer range covers is one the piece marked. */
  lemma TakenBlock(g: Geometry, was: Chunk, c: Chunk, index: nat, rel: nat, piece: seq<byte>, off: nat, done: nat,
                   b: nat)
    requires 0 < g.block && was.mem.Some? && TookPiece(was, c, g.block, rel, piece) && b < |c.valid|
    requires off + done == g.Start(index) + rel && (done == 0 || rel == 0)
    requires BlockInside(g, index, b, off, done + |piece|)
    ensures BlockTrusted(c, b)
  {
    var took := was.(mem := Some(Splice(was.mem.value, rel, piece)), lastAccess := c.lastAccess);
    InsideIsMarked(took, g.block, rel, |piece|, b);
  }

  /** The address right after one chunk is the start of another. */
  lemma AtStart(g: Geometry, last: nat, index: nat, rel: nat)
    requires g.Start(last) + g.chunkBytes == g.Start(index) + rel && rel < g.chunkBytes
    ensures rel == 0
  {
    if index <= last {
      MulLe(index, last, g.chunkBytes);
    } else {
      NextMultiple(last, index, g.chunkBytes);
    }
  }

  /** An empty slot is untouched; a resident chunk took the piece, or, after a failed write, trusts nothing. */
  predicate Updated(before: Chunk, after: Chunk, block: nat, rel: nat, piece: seq<byte>, ok: bool)
    requires 0 < block
  {
    if before.mem.None? then after == before && ok
    else if ok then TookPiece(before, after, block, rel, piece)
    else after.mem.Some? && forall b :: 0 <= b < |after.valid| ==> !after.valid[b]
  }

  /** One chunk's update keeps the table coherent with the overwritten image and, if it worked, extends the promoted
      range. */
  lemma UpdateStep(g: Geometry, before: seq<Chunk>, image: seq<byte>, c: Chunk, index: nat, rel: nat, piece: seq<byte>,
                   ok: bool, off: nat, done: nat)
    requires ShapedTable(g, before) && |image| == g.size && index < |before| && ShapedTable(g, before[index := c])
    requires off + done == g.Start(index) + rel && off + done + |piece| <= g.size && rel + |piece| <= g.chunkBytes
    requires (done == 0 || rel == 0)
    requires Updated(before[index], c, g.block, rel, piece, ok)
    ensures Coherent(g, before, image) ==> Coherent(g, before[index := c], Splice(image, off + done, piece))
    ensures ok && Promoted(g, before, off, done) ==> Promoted(g, before[index := c], off, done + |piece|)
  {
    assert Shaped(g, before[index := c][index], ChunkLen(g, index));
    PieceStep(g, before, image, index, c, off + done, rel, piece);
    if ok && Promoted(g, before, off, done) {
      PromotedStep(g, before, c, index, rel, piece, off, done);
    }
  }

  // ---------------------------------------------------------------- a promoted range is a hit

  /** Multiples of the block that differ are at least a block apart. */
  lemma WholeBlocksApart(k: nat, l: nat, block: nat)
    requires k * block < l * block
    ensures k * block + block <= l * block
  {
    if l <= k {
      MulLe(l, k, block);
    } else {
      NextMultiple(k, l, block);
    }
  }

  /** The start of block `b` of chunk `i`, counted in blocks. */
  lemma BlockStart(g: Geometry, i: nat, b: nat) returns (k: nat)
    requires g.Ok()
    ensures k * g.block == g.Start(i) + b * g.block
  {
    var q := g.chunkBytes / g.block;
    assert g.chunkBytes == g.block * q;
    k := i * q + b;
    calc {
      k * g.block;
      i * q * g.block + b * g.block;
      { assert i * q * g.block == i * (q * g.block); }
      g.Start(i) + b * g.block;
    }
  }

  /** After an aligned range has been promoted, every byte of it in a resident chunk is trusted. */
  lemma PromotedIsTrusted(g: Geometry, chunks: seq<Chunk>, off: nat, len: nat, first: nat, last: nat, p: nat)
    requires ShapedTable(g, chunks) && Promoted(g, chunks, off, len) && off == first * g.block
    requires off + len == last * g.block <= g.size
    requires off <= p < off + len && Quot(p, g.chunkBytes) < |chunks| && chunks[Quot(p, g.chunkBytes)].mem.Some?
    ensures Trusted(g, chunks, p)
  {
    var i, r := Quot(p, g.chunkBytes), p % g.chunkBytes;
    Locate(g, p);
    var c := chunks[i];
    assert Shaped(g, c, ChunkLen(g, i));
    BlockOf(r, g.block, |c.valid|);
    var b := Quot(r, g.block);
    var k := BlockStart(g, i, b);
    if k * g.block < off {
      WholeBlocksApart(k, first, g.block);
    }
    WholeBlocksApart(k, last, g.block);
    assert BlockInside(g, i, b, off, len);
    assert BlockTrusted(c, b);
  }
}
