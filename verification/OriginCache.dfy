/** The write-through cache backend: a durable origin fronted by a revocable, best-effort VRAM block cache. */
module OriginCache {
  import opened Bytes
  import opened Arithmetic
  import opened Device
  import opened CacheChunks
  import opened CachePolicy
  import opened MediumLaw

  datatype PolicyOutcome = PolicyOutcome(target: nat, grown: nat, released: nat)

  /** Only chunks of full length are ever resident. */
  ghost predicate FullOnly(g: Geometry, chunks: seq<Chunk>) {
    forall i :: 0 <= i < |chunks| && chunks[i].mem.Some? ==> g.Start(i) + g.chunkBytes <= g.size
  }

  /** A ready, clean origin has everything on disk; a clean flag means nothing dirty lies under the cache. */
  ghost predicate DiskLaw(g: Geometry, chunks: seq<Chunk>, readable: seq<byte>, durable: seq<byte>, ready: bool,
                          dirty: bool)
    requires ShapedTable(g, chunks) && |readable| == |durable| == g.size
  {
    && (ready && !dirty ==> durable == readable)
    && (!dirty ==> CleanUnderCache(g, chunks, readable, durable))
  }

  /** The outcome and the recorded step tell of the same observation; a release stops as soon as the target is met. */
  ghost predicate Reported(outcome: PolicyOutcome, s: GpuStep, sample: Option<GpuSample>, now: nat, cap: nat,
                           before: nat, cached: nat, target: nat, chunk: nat)
  {
    && s.now == now && s.sample == sample && s.cap == cap && s.before == before && s.cached == cached
    && s.target == target
    && outcome == PolicyOutcome(target, if s.grew then chunk else 0, SatSub(before, cached))
    && (s.restricted && cached < before ==> target < cached + chunk)
  }

  /** The table a cache starts with. */
  function EmptyTable(g: Geometry): seq<Chunk>
    requires g.Ok()
  {
    seq(g.Count(), i requires 0 <= i => Chunk(None, 1, 0, seq(ChunkLen(g, i) / g.block, _ => false), 0))
  }

  lemma EmptyTableTrustsNothing(g: Geometry)
    requires g.Ok()
    ensures var chunks := EmptyTable(g);
            && ShapedTable(g, chunks) && FullOnly(g, chunks) && Residents(chunks) == 0
            && forall image: seq<byte> :: |image| == g.size ==>
                                            && Coherent(g, chunks, image)
                                            && DiskLaw(g, chunks, image, image, true, false)
  {
    var chunks := EmptyTable(g);
    forall i | 0 <= i < |chunks| ensures Shaped(g, chunks[i], ChunkLen(g, i)) {
      ChunkLenMultiple(g, i);
    }
    ResidentsBound(chunks, 0);
  }

  class WriteThroughCache {
    const g: Geometry
    const origin: Origin
    const vram: VramProvider
    var chunks: seq<Chunk>
    var targetBytes: nat
    var physicalCap: nat
    var healthySamples: nat
    var restrictedSamples: nat
    var lastGrowthAt: Option<nat>
    var overTargetSince: Option<nat>
    var accessClock: nat
    var originState: OriginState
    var probeSuccesses: nat
    var originDirty: bool
    var cacheState: CacheState
    /** Every call so far, and every GPU observation so far. */
    ghost var log: seq<Event>
    ghost var gpuLog: seq<GpuStep>

    /** Everything but agreement with the origin and the budget laws. */
    ghost predicate Valid()
      reads this, origin
    {
      Structured() && Authority() && Durable()
    }

    /** The origin's authority state and its probe counter. */
    ghost function Rank(): (OriginState, nat)
      reads this
    {
      (originState, probeSuccesses)
    }

    /** The state machine is what the history calls for, and service was always lawful. */
    ghost predicate Authority()
      reads this`log, this`originState, this`probeSuccesses
    {
      ServiceLawful(log) && StateAfter(log) == (originState, probeSuccesses)
    }

    ghost predicate Durable()
      requires Structured()
      reads this, origin
    {
      DiskLaw(g, chunks, origin.readable, origin.durable, originState.Ready?, originDirty)
    }

    /** The growth and reclaim laws hold of the whole sample history, which the counters summarise.  Only `ObserveGpu`
        touches the fields this reads. */
    ghost predicate Budget()
      reads this`gpuLog, this`healthySamples, this`restrictedSamples, this`lastGrowthAt, this`overTargetSince
    {
      && PolicyLawful(gpuLog, g.chunkBytes)
      && CountersMatch(gpuLog, g.chunkBytes, healthySamples, restrictedSamples, lastGrowthAt, overTargetSince)
    }

    ghost function Counted(): Counters
      reads this
    {
      Counters(healthySamples, restrictedSamples, lastGrowthAt, overTargetSince)
    }

    ghost predicate Structured()
      reads this, origin
    {
      && ShapedTable(g, chunks) && origin.Valid() && |origin.readable| == g.size
      && FullOnly(g, chunks)
      && physicalCap <= g.size
    }

    /** Every trusted cache byte equals the origin's. */
    ghost predicate InStep()
      requires Structured()
      reads this, origin
    {
      Coherent(g, chunks, origin.readable)
    }

    /** `with_chunk_bytes`, for a geometry it accepts. */
    constructor (origin: Origin, vram: VramProvider, g: Geometry)
      requires g.Ok()
      ensures Valid() <==> origin.Valid() && |origin.readable| == g.size && origin.durable == origin.readable
      ensures (Valid() ==> InStep()) && Budget()
      ensures this.g == g && this.origin == origin && this.vram == vram && physicalCap == g.size
      ensures log == [] && gpuLog == [] && originState.Ready? && !originDirty && CachedBytes() == 0
    {
      this.g, this.origin, this.vram := g, origin, vram;
      chunks := EmptyTable(g);
      targetBytes, physicalCap := 0, g.size;
      healthySamples, restrictedSamples, lastGrowthAt, overTargetSince := 0, 0, None, None;
      accessClock, originState, probeSuccesses, originDirty, cacheState := 0, Ready, 0, false, Off;
      log, gpuLog := [], [];
      new;
      EmptyTableTrustsNothing(g);
    }

    /** `cached_bytes`. */
    function CachedBytes(): nat
      reads this
    {
      Residents(chunks) * g.chunkBytes
    }

    method SetPhysicalCap(cap: nat)
      requires Valid()
      modifies this`physicalCap
      ensures Valid() && physicalCap == Min(cap, g.size)
      ensures old(InStep()) ==> InStep()
    {
      physicalCap := Min(cap, g.size);
    }

    // ------------------------------------------------------------ invalidation and release

    method InvalidateChunk(index: nat)
      requires Structured() && index < |chunks|
      modifies this`chunks
      ensures Structured() && chunks == old(chunks)[index := Invalidated(old(chunks)[index])]
      ensures Weaker(old(chunks), chunks) && SameResidency(old(chunks), chunks)
    {
      chunks := chunks[index := Invalidated(chunks[index])];
      assert Shaped(g, old(chunks)[index], ChunkLen(g, index));
    }

    /** Invalidates every resident chunk that `off..off + len` touches. */
    method InvalidateCachedRange(off: nat, len: nat)
      requires Structured() && off + len <= g.size
      modifies this`chunks
      ensures Structured() && Weaker(old(chunks), chunks) && SameResidency(old(chunks), chunks)
      ensures forall i :: 0 <= i < |chunks| ==>
                chunks[i] ==
                if 0 < len && g.Start(i) < off + len && off < g.Start(i) + g.chunkBytes then Distrusted(old(chunks)[i])
                else old(chunks)[i]
    {
      if len == 0 {
        return;
      }
      var first, last := Quot(off, g.chunkBytes), Quot(off + len - 1, g.chunkBytes);
      Locate(g, off);
      Locate(g, off + len - 1);
      var index := first;
      while index <= last
        invariant first <= index && last < |chunks|
        invariant Structured() && Weaker(old(chunks), chunks) && SameResidency(old(chunks), chunks)
        invariant forall i :: 0 <= i < |chunks| ==>
                    chunks[i] == if first <= i < index && i <= last then Distrusted(old(chunks)[i]) else old(chunks)[i]
      {
        if chunks[index].mem.Some? {
          InvalidateChunk(index);
        }
        index := index + 1;
      }
      forall i | 0 <= i < |chunks|
        ensures first <= i <= last <==> g.Start(i) < off + len && off < g.Start(i) + g.chunkBytes
      {
        TouchedChunk(g, off, len, i);
      }
    }

    method InvalidateAllCached()
      requires Structured()
      modifies this`chunks
      ensures Structured() && Weaker(old(chunks), chunks) && SameResidency(old(chunks), chunks)
      ensures forall i :: 0 <= i < |chunks| ==> chunks[i] == Distrusted(old(chunks)[i])
    {
      for index := 0 to |chunks|
        invariant |chunks| == |old(chunks)|
        invariant Structured() && Weaker(old(chunks), chunks) && SameResidency(old(chunks), chunks)
        invariant forall i :: 0 <= i < |chunks| ==>
                    chunks[i] == if i < index then Distrusted(old(chunks)[i]) else old(chunks)[i]
      {
        if chunks[index].mem.Some? {
          InvalidateChunk(index);
        }
      }
    }

    /** The resident chunk with the oldest access, first one on ties. */
    method LeastRecentlyUsed() returns (index: Option<nat>)
      ensures index.None? <==> forall i :: 0 <= i < |chunks| ==> chunks[i].mem.None?
      ensures index.Some? ==> index.value < |chunks| && chunks[index.value].mem.Some? &&
                              forall i :: 0 <= i < |chunks| && chunks[i].mem.Some? ==>
                                chunks[index.value].lastAccess <= chunks[i].lastAccess
      ensures index.Some? ==>
                forall i :: 0 <= i < index.value && chunks[i].mem.Some? ==>
                  chunks[index.value].lastAccess < chunks[i].lastAccess
    {
      index := None;
      for k := 0 to |chunks|
        invariant index.None? <==> forall i :: 0 <= i < k ==> chunks[i].mem.None?
        invariant index.Some? ==> index.value < k && chunks[index.value].mem.Some? &&
                                  forall i :: 0 <= i < k && chunks[i].mem.Some? ==>
                                    chunks[index.value].lastAccess <= chunks[i].lastAccess
        invariant index.Some? ==>
                    forall i :: 0 <= i < index.value && chunks[i].mem.Some? ==>
                      chunks[index.value].lastAccess < chunks[i].lastAccess
      {
        if chunks[k].mem.Some? && (index.None? || chunks[k].lastAccess < chunks[index.value].lastAccess) {
          index := Some(k);
        }
      }
    }

    /** Drops one resident chunk: invalidates it and frees its memory. */
    method Evict(index: nat)
      requires Structured() && index < |chunks| && chunks[index].mem.Some?
      modifies this`chunks
      ensures Structured()
      ensures chunks == old(chunks)[index := Invalidated(old(chunks)[index]).(mem := None)]
      ensures Residents(chunks) == old(Residents(chunks)) - 1
      ensures CachedBytes() == old(CachedBytes()) - g.chunkBytes
    {
      ghost var before := chunks;
      InvalidateChunk(index);
      chunks := chunks[index := chunks[index].(mem := None)];
      assert chunks == before[index := chunks[index]];
      ResidentsUpdate(before, index, chunks[index]);
      OneLess(Residents(before), g.chunkBytes);
      assert Shaped(g, before[index], ChunkLen(g, index));
    }

    /** Releases least-recently-used chunks until the cache fits: no more chunks than needed, and never a chunk
        accessed later than one that stays. */
    method ReleaseLruTo(target: nat) returns (released: nat)
      requires Structured()
      modifies this`chunks
      ensures Structured() && LruReleased(old(chunks), chunks)
      ensures CachedBytes() <= target && released == old(CachedBytes()) - CachedBytes()
      ensures if released == 0 then chunks == old(chunks) else target < CachedBytes() + g.chunkBytes
    {
      released := 0;
      ghost var before := chunks;
      while CachedBytes() > target
        invariant Structured() && LruReleased(before, chunks)
        invariant released == old(CachedBytes()) - CachedBytes()
        invariant if released == 0 then chunks == before else target < CachedBytes() + g.chunkBytes
        decreases Residents(chunks)
      {
        var index := LeastRecentlyUsed();
        if index.None? {
          ResidentsBound(chunks, 0);
          break;
        }
        LruStep(before, chunks, index.value, Invalidated(chunks[index.value]).(mem := None));
        Evict(index.value);
        released := released + g.chunkBytes;
      }
    }

    // ------------------------------------------------------------ cached reads and updates

    /** The chunk that holds byte `absolute`, the offset in it, and how much of `rest` bytes fits there. */
    method Split(absolute: nat, rest: nat) returns (index: nat, relative: nat, count: nat)
      requires Structured() && 0 < rest && absolute + rest <= g.size
      ensures index < |chunks| && absolute == g.Start(index) + relative && relative < g.chunkBytes
      ensures 0 < count <= rest && relative + count <= g.chunkBytes
      ensures count < rest ==> relative + count == g.chunkBytes
    {
      Locate(g, absolute);
      index, relative := Quot(absolute, g.chunkBytes), absolute % g.chunkBytes;
      count := Min(rest, g.chunkBytes - relative);
    }

    /** Whether every byte of the range is trusted. */
    method RangeIsCached(off: nat, len: nat) returns (hit: bool)
      requires Structured() && off + len <= g.size
      ensures hit <==> RangeTrusted(g, chunks, off, len)
    {
      var done := 0;
      while done < len
        invariant done <= len && RangeTrusted(g, chunks, off, done)
      {
        var index, relative, count := Split(off + done, len - done);
        DivUnique(off + done, g.chunkBytes, index, relative);
        TrustedPiece(g, chunks, off + done, count, index, relative);
        var trusted := PieceIsCached(index, relative, count);
        if !trusted {
          return false;
        }
        assert RangeTrusted(g, chunks, off + done, count);
        done := done + count;
      }
      return true;
    }

    /** The check `range_is_cached` makes on one chunk. */
    method PieceIsCached(index: nat, relative: nat, count: nat) returns (hit: bool)
      requires Structured() && index < |chunks| && 0 < count && relative + count <= g.chunkBytes
      requires g.Start(index) + relative + count <= g.size
      ensures hit <==> PieceLive(chunks[index], relative, count, g.block)
    {
      var chunk := chunks[index];
      assert Shaped(g, chunk, ChunkLen(g, index));
      if chunk.mem.None? || chunk.validityGeneration != chunk.generation {
        assert !Live(chunk, relative, g.block);
        return false;
      }
      TouchedBlocks(chunk, relative, count, g.block);
      hit := AllSet(chunk, Quot(relative, g.block), CeilQuot(relative + count, g.block));
    }

    static method AllSet(chunk: Chunk, first: nat, last: nat) returns (all: bool)
      requires last <= |chunk.valid|
      ensures all <==> BlocksValid(chunk, first, last)
    {
      var b := first;
      while b < last
        invariant first <= b
        invariant forall k :: first <= k < Min(b, last) ==> chunk.valid[k]
      {
        if !chunk.valid[b] {
          return false;
        }
        b := b + 1;
      }
      return true;
    }

    method Touch(index: nat)
      requires Structured() && index < |chunks|
      modifies this`chunks, this`accessClock
      ensures Structured() && chunks == old(chunks)[index := old(chunks)[index].(lastAccess := accessClock)]
      ensures accessClock == Min(old(accessClock) + 1, U64_MAX)
    {
      accessClock := Min(accessClock + 1, U64_MAX);
      chunks := chunks[index := chunks[index].(lastAccess := accessClock)];
      assert Shaped(g, old(chunks)[index], ChunkLen(g, index));
    }

    /** Reads a range from the cache; `Err(i)` when chunk `i` could not be read. */
    method CacheRead(off: nat, len: nat) returns (r: Result<seq<byte>, nat>)
      requires Structured() && off + len <= g.size
      modifies this`chunks, this`accessClock, vram
      ensures Structured() && SameButAccess(old(chunks), chunks)
      ensures r.Err? ==> r.error < |chunks|
      ensures old(vram.calls) <= vram.calls
      ensures r.Err? && RangeTrusted(g, old(chunks), off, len) ==> vram.Failed(old(vram.calls))
      ensures r.Ok? && old(InStep()) && RangeTrusted(g, old(chunks), off, len) ==>
                r.value == origin.readable[off..off + len]
    {
      var buf: seq<byte> := [];
      ghost var before := chunks;
      while |buf| < len
        invariant |buf| <= len && old(vram.calls) <= vram.calls
        invariant Structured() && SameButAccess(before, chunks)
        invariant old(InStep()) && RangeTrusted(g, before, off, len) ==> buf == origin.readable[off..off + |buf|]
      {
        var index, relative, count := Split(off + |buf|, len - |buf|);
        var mem := chunks[index].mem;
        assert before[index].(lastAccess := 0).mem == chunks[index].(lastAccess := 0).mem;
        if mem.None? {
          EmptyIsUntrusted(g, before, off + |buf|, index, relative);
          return Err(index);
        }
        assert Shaped(g, chunks[index], ChunkLen(g, index));
        var bytes := vram.ReadAt(mem.value, relative, count);
        if bytes.None? {
          return Err(index);
        }
        if old(InStep()) && RangeTrusted(g, before, off, len) {
          TrustedRead(g, before, origin.readable, off, len, off + |buf|, count, index, relative);
        }
        Touch(index);
        buf := buf + bytes.value;
      }
      return Ok(buf);
    }

    /** Marks the blocks that `relative..relative + len` covers completely. */
    method MarkFullyCoveredBlocks(index: nat, relative: nat, len: nat)
      requires Structured() && index < |chunks|
      modifies this`chunks
      ensures Structured() && chunks == old(chunks)[index := Marked(old(chunks)[index], g.block, relative, len)]
    {
      var first, last := CeilQuot(relative, g.block), Quot(relative + len, g.block);
      var chunk := chunks[index];
      var valid := if chunk.validityGeneration != chunk.generation then seq(|chunk.valid|, _ => false) else chunk.valid;
      ghost var base := valid;
      var b := first;
      while b < last
        invariant first <= b && |valid| == |chunk.valid|
        invariant forall k :: 0 <= k < |valid| ==> valid[k] == (base[k] || first <= k < Min(b, last))
      {
        if b < |valid| {
          valid := valid[b := true];
        }
        b := b + 1;
      }
      assert valid == Marked(chunk, g.block, relative, len).valid;
      chunks := chunks[index := chunk.(validityGeneration := chunk.generation, valid := valid)];
      assert Shaped(g, chunk, ChunkLen(g, index));
    }

    /** Mirrors `data` into every resident chunk it touches.  A chunk whose write fails loses all trust.  If the
        table agreed with `image` it now agrees with `image` overwritten by `data`. */
    method UpdateCachedChunks(off: nat, data: seq<byte>, ghost image: seq<byte>)
      requires Structured() && off + |data| <= g.size && |image| == g.size
      modifies this`chunks, this`accessClock, vram
      ensures Structured() && SameResidency(old(chunks), chunks) && old(vram.calls) <= vram.calls
      ensures Coherent(g, old(chunks), image) ==> Coherent(g, chunks, Splice(image, off, data))
      ensures vram.Failed(old(vram.calls)) || Promoted(g, chunks, off, |data|)
    {
      var done := 0;
      ghost var before, last, now, failed := chunks, 0, image, false;
      assert data[..0] == [] && data[..|data|] == data;
      while done < |data|
        invariant done <= |data| && old(vram.calls) <= vram.calls
        invariant Structured() && SameResidency(before, chunks)
        invariant SplicedTo(now, image, off, data, done)
        invariant Coherent(g, before, image) ==> Coherent(g, chunks, now)
        invariant (failed ==> vram.Failed(old(vram.calls))) && (failed || Promoted(g, chunks, off, done))
        invariant 0 < done < |data| ==> off + done == g.Start(last) + g.chunkBytes
      {
        var index, relative, count := Split(off + done, |data| - done);
        if 0 < done {
          AtStart(g, last, index, relative);
        }
        var upto := done + count;
        ghost var calls, next := vram.calls, Splice(now, off + done, data[done..upto]);
        SplicedMore(now, image, off, data, done, upto);
        ghost var ok := UpdateNext(index, relative, data[done..upto], now, next, off, done, upto);
        vram.FailedSince(old(vram.calls), calls);
        done := upto;
        last, now, failed := index, next, failed || !ok;
      }
    }

    /** One chunk's share of an update, `done` bytes into the data written at `off`, and what it means for the table. */
    method UpdateNext(index: nat, relative: nat, piece: seq<byte>, ghost image: seq<byte>, ghost next: seq<byte>,
                      ghost off: nat,
                      ghost done: nat, ghost upto: nat) returns (ghost ok: bool)
      requires Structured() && |image| == g.size && index < |chunks|
      requires off + done == g.Start(index) + relative && off + done + |piece| <= g.size
      requires relative + |piece| <= g.chunkBytes
      requires (done == 0 || relative == 0) && next == Splice(image, off + done, piece) && upto == done + |piece|
      modifies this`chunks, this`accessClock, vram
      ensures Structured() && SameResidency(old(chunks), chunks) && old(vram.calls) <= vram.calls
      ensures Coherent(g, old(chunks), image) ==> Coherent(g, chunks, next)
      ensures if ok then Promoted(g, old(chunks), off, done) ==> Promoted(g, chunks, off, upto)
              else vram.Failed(old(vram.calls))
    {
      ghost var was := chunks;
      var taken := UpdatePiece(index, relative, piece);
      UpdateStep(g, was, image, chunks[index], index, relative, piece, taken, off, done);
      ok := taken;
    }

    /** One chunk's share of an update: it takes the piece and marks its blocks, or trusts nothing any more. */
    method UpdatePiece(index: nat, relative: nat, piece: seq<byte>) returns (ok: bool)
      requires Structured() && index < |chunks| && relative + |piece| <= g.chunkBytes
      modifies this`chunks, this`accessClock, vram
      ensures Structured() && SameResidency(old(chunks), chunks) && chunks == old(chunks)[index := chunks[index]]
      ensures old(vram.calls) <= vram.calls
      ensures Updated(old(chunks)[index], chunks[index], g.block, relative, piece, ok)
      ensures !ok ==> vram.Failed(old(vram.calls))
    {
      ghost var before := chunks;
      assert Shaped(g, before[index], ChunkLen(g, index));
      var mem := chunks[index].mem;
      ok := true;
      if mem.Some? {
        var after;
        ok, after := vram.WriteAt(mem.value, relative, piece);
        chunks := chunks[index := chunks[index].(mem := Some(after))];
        if !ok {
          InvalidateChunk(index);
        } else {
          Touch(index);
          MarkFullyCoveredBlocks(index, relative, |piece|);
          assert TookPiece(before[index], chunks[index], g.block, relative, piece);
        }
      }
      assert chunks == before[index := chunks[index]];
    }

    // ------------------------------------------------------------ origin authority

    ghost method Record(e: Event)
      requires ServiceLawful(log) && (e.Served? ==> StateAfter(log).0.Ready?)
      modifies this`log
      ensures ServiceLawful(log) && log == old(log) + [e]
      ensures StateAfter(log) == NextAuthority(old(StateAfter(log)), e)
    {
      ServiceLawfulExtend(log, e);
      log := log + [e];
    }

    method MarkOriginFailed()
      requires ServiceLawful(log)
      modifies this`originState, this`probeSuccesses, this`log
      ensures originState.Failed? && probeSuccesses == 0 && log == old(log) + [Faulted]
      ensures ServiceLawful(log) && StateAfter(log) == (originState, probeSuccesses)
    {
      originState, probeSuccesses := Failed, 0;
      Record(Faulted);
    }

    /** Writes the origin.  On failure a prefix may have been applied, and every chunk the range touches loses its
        trust before recovery can permit a read. */
    method WriteOrigin(off: nat, data: seq<byte>) returns (ok: bool, ghost applied: nat)
      requires Valid() && originState.Ready? && off + |data| <= g.size && 0 < |data|
      modifies this`chunks, this`originState, this`probeSuccesses, this`originDirty, this`log, origin
      ensures Valid() && applied <= |data| && origin.readable == Splice(old(origin.readable), off, data[..applied])
      ensures Mixed(origin.durable, origin.readable, old(origin.durable))
      ensures ok ==> origin.readable == Splice(old(origin.readable), off, data) && originDirty
      ensures ok ==> chunks == old(chunks) && originState.Ready? && log == old(log)
      ensures !ok ==> originState.Failed? && log == old(log) + [Faulted] && (old(InStep()) ==> InStep())
      ensures if ok then old(origin.calls) <= origin.calls else origin.Misbehaved(old(origin.calls), |data|)
      ensures LazyWrite(origin.script(old(origin.calls)), |data|) ==>
                ok && origin.durable == old(origin.durable) && origin.calls == old(origin.calls) + 1
    {
      ghost var before, r0, d0 := chunks, origin.readable, origin.durable;
      ok, applied := origin.WriteAllAt(off, data);
      if ok {
        originDirty := true;
      } else {
        InvalidateCachedRange(off, |data|);
        ConfinedChange(g, before, chunks, r0, origin.readable, d0, origin.durable, off, |data|);
        MarkOriginFailed();
      }
    }

    /** Syncs if anything was written since the last sync.  On failure the whole cache loses its trust, and every byte
        is what was readable or what was on disk. */
    method SyncDirtyOrigin() returns (ok: bool)
      requires Valid() && originState.Ready?
      modifies this`chunks, this`originState, this`probeSuccesses, this`originDirty, this`log, origin
      ensures Valid()
      ensures ok ==> origin.durable == origin.readable == old(origin.readable) && !originDirty
      ensures ok ==> chunks == old(chunks) && originState.Ready? && log == old(log)
      ensures !ok ==> originState.Failed? && log == old(log) + [Faulted] && InStep()
      ensures Mixed(origin.readable, old(origin.readable), old(origin.durable))
      ensures Mixed(origin.durable, old(origin.readable), old(origin.durable))
      ensures ok && !old(originDirty) ==> origin.calls == old(origin.calls)
      ensures !ok ==> origin.Misbehaved(old(origin.calls), 1)
    {
      if !originDirty {
        return true;
      }
      ok := origin.SyncData();
      if ok {
        originDirty := false;
        FallbackClean(g, chunks, origin.readable);
      } else {
        assert BadTransfer(origin.script(origin.calls - 1), 1);
        InvalidateAllCached();
        AllUntrusted(g, chunks, origin.readable, origin.durable);
        MarkOriginFailed();
      }
    }

    // ------------------------------------------------------------ block I/O

    /** A successful read returns exactly what the origin alone would have returned. */
    method ReadAt(off: nat, len: nat) returns (r: Result<seq<byte>, ()>)
      requires Valid()
      modifies this`chunks, this`accessClock, this`originState, this`probeSuccesses, this`log, origin`calls, vram
      ensures Valid() && (old(InStep()) ==> InStep())
      ensures r.Ok? && old(InStep()) ==> off + len <= g.size && r.value == origin.readable[off..off + len]
      ensures off + len > g.size || !old(originState).Ready? ==> r.Err? && log == old(log) + [Refused]
      ensures r.Ok? ==> log == old(log) + [Served]
      ensures r.Err? && off + len <= g.size && old(originState).Ready? ==>
                log == old(log) + [Faulted] && origin.Misbehaved(old(origin.calls), len)
      ensures off + len <= g.size && old(originState).Ready? && RangeTrusted(g, old(chunks), off, len) ==>
                (r.Ok? && origin.calls == old(origin.calls)) || vram.Failed(old(vram.calls))
      ensures r.Ok? && 0 < len && CachedBytes() <= targetBytes ==>
                vram.Failed(old(vram.calls)) || RangeTrusted(g, old(chunks), off, len) || Promoted(g, chunks, off, len)
    {
      if off + len > g.size || !originState.Ready? {
        Record(Refused);
        return Err(());
      }
      if len == 0 {
        Record(Served);
        return Ok([]);
      }
      var hit := TryCache(off, len);
      if hit.Some? {
        Record(Served);
        return Ok(hit.value);
      }
      ghost var calls := vram.calls;
      r := ReadThrough(off, len);
      vram.FailedSince(old(vram.calls), calls);
    }

    /** The cache path of `read_at`; a chunk that cannot be read loses its trust. */
    method TryCache(off: nat, len: nat) returns (hit: Option<seq<byte>>)
      requires Structured() && Durable() && off + len <= g.size
      modifies this`chunks, this`accessClock, vram
      ensures Structured() && Durable() && (old(InStep()) ==> InStep())
      ensures hit.Some? && old(InStep()) ==> hit.value == origin.readable[off..off + len]
      ensures hit.Some? ==> RangeTrusted(g, old(chunks), off, len)
      ensures hit.None? && RangeTrusted(g, old(chunks), off, len) ==> vram.Failed(old(vram.calls))
      ensures old(vram.calls) <= vram.calls
    {
      hit := None;
      ghost var before := chunks;
      var cached := RangeIsCached(off, len);
      if cached {
        var read := CacheRead(off, len);
        TouchOnly(before, chunks);
        if read.Ok? {
          hit := Some(read.value);
        } else {
          ghost var touched := chunks;
          InvalidateChunk(read.error);
          TouchThenWeaker(before, touched, chunks);
        }
      }
      WeakerIsLawful(g, before, chunks, origin.readable, origin.durable, originState.Ready?, originDirty);
    }

    /** The origin path of `read_at`: read, then promote if the cache is within its target. */
    method ReadThrough(off: nat, len: nat) returns (r: Result<seq<byte>, ()>)
      requires Valid() && originState.Ready? && off + len <= g.size
      modifies this`chunks, this`accessClock, this`originState, this`probeSuccesses, this`log, origin`calls, vram
      ensures Valid() && (old(InStep()) ==> InStep())
      ensures r.Ok? ==> r.value == origin.readable[off..off + len] && log == old(log) + [Served]
      ensures r.Err? ==> log == old(log) + [Faulted] && originState.Failed? && origin.Misbehaved(old(origin.calls), len)
      ensures SameResidency(old(chunks), chunks) && old(vram.calls) <= vram.calls
      ensures CachedBytes() > targetBytes ==> chunks == old(chunks)
      ensures r.Ok? && CachedBytes() <= targetBytes ==> vram.Failed(old(vram.calls)) || Promoted(g, chunks, off, len)
    {
      r := origin.ReadExactAt(off, len);
      if r.Err? {
        MarkOriginFailed();
        return;
      }
      if CachedBytes() <= targetBytes {
        Promote(off, r.value);
      }
      Record(Served);
    }

    /** Bytes just read from the origin go into the resident chunks they belong to. */
    method Promote(off: nat, bytes: seq<byte>)
      requires Structured() && Durable() && originState.Ready?
      requires off + |bytes| <= g.size && bytes == origin.readable[off..off + |bytes|]
      modifies this`chunks, this`accessClock, vram
      ensures Structured() && Durable() && (old(InStep()) ==> InStep())
      ensures SameResidency(old(chunks), chunks) && CachedBytes() == old(CachedBytes()) && old(vram.calls) <= vram.calls
      ensures vram.Failed(old(vram.calls)) || Promoted(g, chunks, off, |bytes|)
    {
      ghost var was := chunks;
      UpdateCachedChunks(off, bytes, origin.readable);
      SpliceSame(origin.readable, off, |bytes|);
      SameResidents(was, chunks);
      if !originDirty {
        FallbackClean(g, chunks, origin.readable);
      }
    }

    /** A plain write: acknowledged once the origin has all of it; the cache follows. */
    method WriteAt(off: nat, data: seq<byte>) returns (ok: bool, ghost applied: nat)
      requires Valid()
      modifies this`chunks, this`accessClock, this`originState, this`probeSuccesses, this`originDirty, this`log
      modifies origin, vram
      ensures Valid() && (old(InStep()) ==> InStep())
      ensures WriteOutcome(old(log), old(originState), old(origin.calls), off, data, ok)
      ensures Written(old(origin.readable), old(origin.durable), off, data, applied, false, ok, origin.readable,
                      origin.durable)
      ensures ok && data != [] ==>
                SameResidency(old(chunks), chunks) && (vram.Failed(old(vram.calls)) || Promoted(g, chunks, off, |data|))
      ensures old(originState).Ready? && off + |data| <= g.size && data != [] ==>
              LazyWrite(origin.script(old(origin.calls)), |data|) ==>
                ok && origin.durable == old(origin.durable) && origin.calls == old(origin.calls) + 1
    {
      applied := 0;
      if off + |data| > g.size || !originState.Ready? {
        Record(Refused);
        return false, 0;
      }
      if data == [] {
        Record(Served);
        assert origin.readable == Splice(origin.readable, off, data);
        return true, 0;
      }
      ghost var image := origin.readable;
      ok, applied := WriteOrigin(off, data);
      if ok {
        UpdateCachedChunks(off, data, image);
        Record(Served);
      }
    }

    /** How a write is answered: refused, served, or failed by the origin's own fault. */
    ghost predicate WriteOutcome(log0: seq<Event>, state0: OriginState, calls0: nat, off: nat, data: seq<byte>,
                                 ok: bool)
      reads this, origin
    {
      if off + |data| > g.size || !state0.Ready? then
        !ok && log == log0 + [Refused] && originState == state0
      else if ok then
        log == log0 + [Served] && originState.Ready?
      else
        log == log0 + [Faulted] && originState.Failed? && data != [] && origin.Misbehaved(calls0, |data|)
    }

    /** A write with options.  A FUA write of at least one byte is acknowledged only when everything written so
        far is durable; a FUA write of no bytes is acknowledged without a sync, so it promises durability exactly
        when the origin was already clean. */
    method WriteAtWithOptions(off: nat, data: seq<byte>, fua: bool) returns (ok: bool, ghost applied: nat)
      requires Valid()
      modifies this`chunks, this`accessClock, this`originState, this`probeSuccesses, this`originDirty, this`log
      modifies origin, vram
      ensures Valid() && (old(InStep()) ==> InStep())
      ensures WriteOutcome(old(log), old(originState), old(origin.calls), off, data, ok)
      ensures Written(old(origin.readable), old(origin.durable), off, data, applied, fua, ok, origin.readable,
                      origin.durable)
      ensures ok && fua ==>
                (origin.durable == origin.readable <==> 0 < |data| || old(origin.durable == origin.readable))
    {
      if !fua {
        ok, applied := WriteAt(off, data);
        return;
      }
      if off + |data| > g.size || !originState.Ready? {
        Record(Refused);
        return false, 0;
      }
      if data == [] {
        Record(Served);
        assert origin.readable == Splice(origin.readable, off, data);
        return true, 0;
      }
      ok, applied := WriteForced(off, data);
    }

    /** Write, sync, then update the cache. */
    method WriteForced(off: nat, data: seq<byte>) returns (ok: bool, ghost applied: nat)
      requires Valid() && originState.Ready? && off + |data| <= g.size && 0 < |data|
      modifies this`chunks, this`accessClock, this`originState, this`probeSuccesses, this`originDirty, this`log
      modifies origin, vram
      ensures Valid() && (old(InStep()) ==> InStep())
      ensures ok ==> origin.durable == origin.readable == Splice(old(origin.readable), off, data)
      ensures ok ==> log == old(log) + [Served] && originState.Ready?
      ensures !ok ==> log == old(log) + [Faulted] && originState.Failed? && origin.Misbehaved(old(origin.calls), |data|)
      ensures Written(old(origin.readable), old(origin.durable), off, data, applied, true, ok, origin.readable,
                      origin.durable)
    {
      ghost var image := origin.readable;
      ok, applied := WriteOrigin(off, data);
      if ok {
        ghost var mid, wrote, disk := origin.calls, origin.readable, origin.durable;
        ok := SyncDirtyOrigin();
        if !ok {
          origin.MisbehavedSince(old(origin.calls), mid, |data|);
          MixedThrough(origin.readable, wrote, disk, old(origin.durable));
          MixedThrough(origin.durable, wrote, disk, old(origin.durable));
        } else {
          UpdateCachedChunks(off, data, image);
          FallbackClean(g, chunks, origin.readable);
          Record(Served);
        }
      }
    }

    /** A successful flush, including one that skips the sync, leaves every acknowledged write durable. */
    method Flush() returns (ok: bool)
      requires Valid()
      modifies this`chunks, this`originState, this`probeSuccesses, this`originDirty, this`log, origin
      ensures Valid() && (old(InStep()) ==> InStep())
      ensures ok ==> origin.durable == origin.readable == old(origin.readable) && log == old(log) + [Served]
      ensures !old(originState).Ready? ==> !ok && log == old(log) + [Refused]
      ensures !ok && old(originState).Ready? ==>
                originState.Failed? && log == old(log) + [Faulted] && origin.Misbehaved(old(origin.calls), 1)
      ensures Mixed(origin.readable, old(origin.readable), old(origin.durable))
      ensures Mixed(origin.durable, old(origin.readable), old(origin.durable))
    {
      if !originState.Ready? {
        Record(Refused);
        return false;
      }
      ok := SyncDirtyOrigin();
      if ok {
        Record(Served);
      }
    }

    /** The origin will answer a probe begun at this call with its whole block, and then lose every dirty page. */
    ghost predicate ProbeLosesAll(call: nat) {
      origin.script(call).ok && origin.script(call).count == g.block && DropsAll(origin.script(call + 1))
    }

    /** One read+sync probe.  A failed probe drops no trust: it keeps the cache in step only if nothing dirty lies
        under trusted bytes, which a clean flag guarantees (`FallbackExact` gives the exact condition). */
    method ProbeOrigin() returns (r: Result<OriginState, ()>)
      requires Valid()
      modifies this`originState, this`probeSuccesses, this`originDirty, this`log, origin
      ensures Valid()
      ensures r.Ok? ==>
                && log == old(log) + [Probed] && r.value == originState
                && origin.durable == origin.readable == old(origin.readable) && !originDirty
      ensures r.Err? ==>
                log == old(log) + [Faulted] && originState.Failed? && origin.Misbehaved(old(origin.calls), g.block)
      ensures old(InStep()) && (r.Ok? || !old(originDirty) || origin.readable == old(origin.readable)) ==> InStep()
      ensures Mixed(origin.readable, old(origin.readable), old(origin.durable))
      ensures Mixed(origin.durable, old(origin.readable), old(origin.durable))
      ensures ProbeLosesAll(old(origin.calls)) ==> r.Err? && origin.readable == old(origin.durable)
    {
      ghost var r0, d0 := origin.readable, origin.durable;
      BlockFits(g.size, g.block);
      var ok := origin.ReadAndSync(g.block);
      if !ok {
        if !originDirty {
          CleanSync(g, chunks, r0, d0, origin.readable, origin.durable);
        }
        MarkOriginFailed();
        return Err(());
      }
      originDirty := false;
      FallbackClean(g, chunks, origin.readable);
      CountProbe();
      return Ok(originState);
    }

    /** Credits one successful probe; the third in a row makes the origin ready. */
    method CountProbe()
      requires Authority()
      modifies this`originState, this`probeSuccesses, this`log
      ensures Authority() && log == old(log) + [Probed]
    {
      if !originState.Ready? {
        probeSuccesses := probeSuccesses + 1;
        if probeSuccesses >= 3 {
          originState, probeSuccesses := Ready, 0;
        } else {
          originState := Degraded;
        }
      }
      Record(Probed);
    }

    // ------------------------------------------------------------ budget policy

    /** Drops the whole cache. */
    method ReleaseCache() returns (released: nat)
      requires Valid()
      modifies this`chunks, this`cacheState
      ensures Valid() && (old(InStep()) ==> InStep())
      ensures CachedBytes() == 0 && released == old(CachedBytes()) && cacheState.Off?
    {
      ghost var before := chunks;
      released := ReleaseLruTo(0);
      LruWeaker(before, chunks);
      WeakerIsLawful(g, before, chunks, origin.readable, origin.durable, originState.Ready?, originDirty);
      cacheState := Off;
    }

    /** Fills the first empty slot with zeroed memory; `Err` when the driver refuses. */
    method AllocateOneChunk() returns (r: Result<nat, ()>, ghost slot: nat)
      requires Structured() && CachedBytes() + g.chunkBytes <= g.size
      modifies this`chunks, this`accessClock, vram
      ensures Structured() && Weaker(old(chunks), chunks)
      ensures r.Ok? ==> r.value == g.chunkBytes && CachedBytes() == old(CachedBytes()) + g.chunkBytes
      ensures r.Err? ==> chunks == old(chunks) && vram.Failed(old(vram.calls))
      ensures slot < |chunks| && old(chunks)[slot].mem.None? && forall j :: 0 <= j < slot ==> old(chunks)[j].mem.Some?
      ensures r.Ok? ==> accessClock == Min(old(accessClock) + 1, U64_MAX) && chunks[slot].lastAccess == accessClock
      ensures r.Ok? ==>
                && chunks == old(chunks)[slot := chunks[slot]] && chunks[slot].mem.Some? && Untrusted(chunks[slot])
                && forall k :: 0 <= k < |chunks[slot].mem.value| ==> chunks[slot].mem.value[k] == 0
    {
      var index := 0;
      while index < |chunks| && chunks[index].mem.Some?
        invariant 0 <= index <= |chunks|
        invariant forall j :: 0 <= j < index ==> chunks[j].mem.Some?
      {
        index := index + 1;
      }
      RoomMeansEmptySlot(g, chunks, index);
      slot := index;
      var mem := vram.Alloc(g.chunkBytes);
      if mem.None? {
        return Err(()), slot;
      }
      var ok, zeroed := vram.Zero(mem.value);
      if !ok {
        return Err(()), slot;
      }
      ghost var before := chunks;
      accessClock := Min(accessClock + 1, U64_MAX);
      var chunk := chunks[index];
      chunks := chunks[index := Chunk(Some(zeroed), chunk.generation, chunk.generation, seq(|chunk.valid|, _ => false),
                                      accessClock)];
      ResidentsUpdate(before, index, chunks[index]);
      OneLess(Residents(chunks), g.chunkBytes);
      assert Shaped(g, before[index], ChunkLen(g, index));
      return Ok(g.chunkBytes), slot;
    }

    /** The reclaim half of an observation: on the third restricted sample in a row, release down to the target. */
    method Reclaim(missing: bool, target: nat) returns (released: nat)
      requires Structured()
      modifies this`chunks, this`healthySamples, this`restrictedSamples, this`cacheState
      ensures Structured() && LruReleased(old(chunks), chunks) && healthySamples == 0
      ensures released == old(CachedBytes()) - CachedBytes()
      ensures 0 < released ==> target < CachedBytes() + g.chunkBytes
      ensures old(restrictedSamples) + 1 >= 3 ==> restrictedSamples == 0 && CachedBytes() <= target
      ensures old(restrictedSamples) + 1 < 3 ==> restrictedSamples == old(restrictedSamples) + 1
      ensures cacheState == if missing then Unavailable else Restricted
    {
      released := 0;
      healthySamples := 0;
      restrictedSamples := Inc8(restrictedSamples);
      cacheState := if missing then Unavailable else Restricted;
      if restrictedSamples >= 3 {
        released := ReleaseLruTo(target);
        restrictedSamples := 0;
      }
    }

    /** The growth half: at most one chunk, at most every two seconds, only from the third healthy sample on. */
    method Grow(target: nat, now: nat) returns (attempted: bool, grown: nat)
      requires Structured() && target <= g.size && target + 2 * GIB <= U64_MAX
      modifies this`chunks, this`accessClock, this`healthySamples, this`restrictedSamples, this`lastGrowthAt
      modifies this`cacheState, vram
      ensures Structured() && Weaker(old(chunks), chunks) && restrictedSamples == 0
      ensures healthySamples == Inc8(old(healthySamples))
      ensures CachedBytes() == old(CachedBytes()) + grown && (grown == 0 || grown == g.chunkBytes)
      ensures lastGrowthAt == if attempted then Some(now) else old(lastGrowthAt)
      ensures attempted <==> old(healthySamples) >= 2 && old(CachedBytes()) + g.chunkBytes <= target
                             && (old(lastGrowthAt).None? || SatSub(now, old(lastGrowthAt).value) >= GROWTH_INTERVAL)
      ensures !attempted ==> grown == 0
      ensures attempted && grown == 0 ==> vram.Failed(old(vram.calls))
      ensures cacheState == if attempted && grown == 0 then Unavailable else Active
    {
      attempted, grown := false, 0;
      restrictedSamples := 0;
      healthySamples := Inc8(healthySamples);
      cacheState := Active;
      CachedWithinDevice(g, chunks);
      if healthySamples >= 3 && SatAdd(CachedBytes(), g.chunkBytes) <= target
         && (lastGrowthAt.None? || SatSub(now, lastGrowthAt.value) >= GROWTH_INTERVAL) {
        lastGrowthAt := Some(now);
        attempted := true;
        var r, _ := AllocateOneChunk();
        if r.Ok? {
          grown := r.value;
        } else {
          cacheState := Unavailable;
        }
      }
    }

    /** Notes how long the cache has been more than a chunk over its target. */
    method WatchTarget(target: nat, now: nat)
      modifies this`overTargetSince, this`cacheState
      ensures overTargetSince == if SatSub(CachedBytes(), target) <= g.chunkBytes then None
                                 else if old(overTargetSince).Some? then old(overTargetSince) else Some(now)
      ensures cacheState == if overTargetSince.Some? && SatSub(now, overTargetSince.value) > STUCK_AFTER then Stuck
                            else old(cacheState)
    {
      if SatSub(CachedBytes(), target) > g.chunkBytes {
        if overTargetSince.None? {
          overTargetSince := Some(now);
        }
        if SatSub(now, overTargetSince.value) > STUCK_AFTER {
          cacheState := Stuck;
        }
      } else {
        overTargetSince := None;
      }
    }

    /** A restricted observation, up to the over-target timer. */
    method ObserveRestricted(sample: Option<GpuSample>, now: nat, target: nat)
      returns (outcome: PolicyOutcome, ghost s: GpuStep)
      requires Structured() && target == targetBytes == PhysicalTarget(physicalCap, sample)
      requires sample.None? || target < CachedBytes() || target < g.chunkBytes
      modifies this`chunks, this`healthySamples, this`restrictedSamples, this`cacheState
      ensures Structured() && LruReleased(old(chunks), chunks) && s.restricted && !s.attempted && !cacheState.Stuck?
      ensures Reported(outcome, s, sample, now, physicalCap, old(CachedBytes()), CachedBytes(), targetBytes,
                       g.chunkBytes)
      ensures StepFollows(s, g.chunkBytes, old(healthySamples), old(restrictedSamples), lastGrowthAt, restrictedSamples)
      ensures healthySamples == 0
    {
      var cachedBefore := CachedBytes();
      var released := Reclaim(sample.None?, target);
      outcome := PolicyOutcome(target, 0, released);
      s := GpuStep(now, sample, physicalCap, cachedBefore, true, false, false, CachedBytes(), target);
    }

    /** An unrestricted observation, up to the over-target timer. */
    method ObserveRoom(sample: Option<GpuSample>, now: nat, target: nat)
      returns (outcome: PolicyOutcome, ghost s: GpuStep)
      requires Structured() && target == targetBytes == PhysicalTarget(physicalCap, sample)
      requires sample.Some? && CachedBytes() <= target && g.chunkBytes <= target
      modifies this`chunks, this`accessClock, this`healthySamples, this`restrictedSamples, this`lastGrowthAt
      modifies this`cacheState, vram
      ensures Structured() && Weaker(old(chunks), chunks) && !s.restricted && !cacheState.Stuck?
      ensures Reported(outcome, s, sample, now, physicalCap, old(CachedBytes()), CachedBytes(), targetBytes,
                       g.chunkBytes)
      ensures StepFollows(s, g.chunkBytes, old(healthySamples), old(restrictedSamples), old(lastGrowthAt),
                          restrictedSamples)
      ensures healthySamples == Inc8(old(healthySamples))
      ensures lastGrowthAt == if s.attempted then Some(now) else old(lastGrowthAt)
      ensures s.attempted && !s.grew ==> vram.Failed(old(vram.calls))
    {
      var cachedBefore := CachedBytes();
      var attempted, grown := Grow(target, now);
      outcome := PolicyOutcome(target, grown, 0);
      s := GpuStep(now, sample, physicalCap, cachedBefore, false, attempted, 0 < grown, CachedBytes(), target);
    }

    /** Brings the cache towards its target, without judging the history. */
    method AdjustToBudget(sample: Option<GpuSample>, now: nat) returns (outcome: PolicyOutcome, ghost s: GpuStep)
      requires Structured()
      modifies this`chunks, this`accessClock, this`targetBytes, this`healthySamples, this`restrictedSamples,
               this`lastGrowthAt, this`overTargetSince, this`cacheState, vram
      ensures Structured() && Weaker(old(chunks), chunks)
      ensures Reported(outcome, s, sample, now, physicalCap, old(CachedBytes()), CachedBytes(), targetBytes,
                       g.chunkBytes)
      ensures s.restricted ==> LruReleased(old(chunks), chunks)
      ensures s.attempted && !s.grew ==> vram.Failed(old(vram.calls))
      ensures CountersFollow(s, g.chunkBytes, old(Counted()), Counted())
      ensures cacheState.Stuck? <==> overTargetSince.Some? && SatSub(now, overTargetSince.value) > STUCK_AFTER
    {
      var target := PhysicalTarget(physicalCap, sample);
      targetBytes := target;
      if sample.None? || target < CachedBytes() || target < g.chunkBytes {
        outcome, s := ObserveRestricted(sample, now, target);
        LruWeaker(old(chunks), chunks);
      } else {
        outcome, s := ObserveRoom(sample, now, target);
      }
      WatchTarget(target, now);
    }

    /** The same, with what it keeps of the cache's own laws. */
    method AdjustLawfully(sample: Option<GpuSample>, now: nat) returns (outcome: PolicyOutcome, ghost s: GpuStep)
      requires Valid()
      modifies this`chunks, this`accessClock, this`targetBytes, this`healthySamples, this`restrictedSamples,
               this`lastGrowthAt, this`overTargetSince, this`cacheState, vram
      ensures Valid() && (old(InStep()) ==> InStep())
      ensures Reported(outcome, s, sample, now, physicalCap, old(CachedBytes()), CachedBytes(), targetBytes,
                       g.chunkBytes)
      ensures s.restricted ==> LruReleased(old(chunks), chunks)
      ensures s.attempted && !s.grew ==> vram.Failed(old(vram.calls))
      ensures CountersFollow(s, g.chunkBytes, old(Counted()), Counted())
      ensures cacheState.Stuck? <==> overTargetSince.Some? && SatSub(now, overTargetSince.value) > STUCK_AFTER
    {
      ghost var before := chunks;
      outcome, s := AdjustToBudget(sample, now);
      WeakerIsLawful(g, before, chunks, origin.readable, origin.durable, originState.Ready?, originDirty);
    }

    /** One GPU observation.  The laws it keeps over the whole sample history are `PolicyLawful`. */
    method ObserveGpu(sample: Option<GpuSample>, now: nat) returns (outcome: PolicyOutcome, ghost s: GpuStep)
      requires Valid() && Budget()
      modifies this`chunks, this`accessClock, this`targetBytes, this`healthySamples, this`restrictedSamples,
               this`lastGrowthAt, this`overTargetSince, this`cacheState, this`gpuLog, vram
      ensures Valid() && Budget() && (old(InStep()) ==> InStep())
      ensures gpuLog == old(gpuLog) + [s]
      ensures Reported(outcome, s, sample, now, physicalCap, old(CachedBytes()), CachedBytes(), targetBytes,
                       g.chunkBytes)
      ensures s.restricted ==> LruReleased(old(chunks), chunks)
      ensures s.attempted && !s.grew ==> vram.Failed(old(vram.calls))
      ensures cacheState.Stuck? <==> OverSince(gpuLog, g.chunkBytes).Some? &&
                                     SatSub(now, OverSince(gpuLog, g.chunkBytes).value) > STUCK_AFTER
    {
      ghost var was := Counted();
      outcome, s := AdjustLawfully(sample, now);
      PolicyStep(gpuLog, g.chunkBytes, was, s, Counted());
      gpuLog := gpuLog + [s];
    }
  }

  /** `with_chunk_bytes`: refuses exactly the geometries without whole blocks.  The cache starts out in step exactly
      when the origin has the stated length and no unsynced bytes. */
  method NewCache(origin: Origin, vram: VramProvider, size: u64, block: nat, chunkBytes: u64)
    returns (r: Result<WriteThroughCache, ()>)
    ensures r.Ok? <==> 0 < size && 0 < block && 0 < chunkBytes && size % block == 0 && chunkBytes % block == 0
    ensures r.Ok? ==>
              && fresh(r.value) && r.value.g == Geometry(size, block, chunkBytes) && r.value.origin == origin
              && r.value.vram == vram
    ensures r.Ok? ==>
              (r.value.Valid() <==> origin.Valid() && |origin.readable| == size && origin.durable == origin.readable)
    ensures r.Ok? ==> (r.value.Valid() ==> r.value.InStep()) && r.value.Budget()
    ensures r.Ok? ==>
              && r.value.originState.Ready? && r.value.gpuLog == [] && r.value.CachedBytes() == 0
              && r.value.physicalCap == size
  {
    if size == 0 || block == 0 || chunkBytes == 0 || size % block != 0 || chunkBytes % block != 0 {
      return Err(());
    }
    var cache := new WriteThroughCache(origin, vram, Geometry(size, block, chunkBytes));
    return Ok(cache);
  }

  // ---------------------------------------------------------------- whole runs

  /** One request of a client.  Short of a failed probe that loses bytes the cache stays in step, and bytes read are the
      origin's own. */
  method PerformRequest(cache: WriteThroughCache, op: Op) returns (out: Outcome)
    requires cache.Valid() && (op.DoRead? || op.DoWrite? || op.DoFlush? || op.DoProbe?)
    modifies cache`chunks, cache`accessClock, cache`originState, cache`probeSuccesses, cache`originDirty, cache`log
    modifies cache.origin, cache.vram
    ensures cache.Valid() && Effect(op, out.ok, old(MediaOf(cache.origin)), MediaOf(cache.origin))
    ensures LosesBytes(op, out, old(MediaOf(cache.origin)), MediaOf(cache.origin)) ||
            (old(cache.InStep()) ==> cache.InStep())
    ensures op.DoRead? && out.ok && old(cache.InStep()) ==> Answers(op, out.bytes, old(cache.origin.readable))
    ensures Ruled(cache.g.size, old(cache.Rank()), op, out.ok, cache.Rank())
  {
    ghost var log, rank := cache.log, cache.Rank();
    if op.DoRead? {
      var r := cache.ReadAt(op.off, op.len);
      out := if r.Ok? then Outcome(true, r.value) else Outcome(false, []);
    } else if op.DoWrite? {
      var ok, _ := cache.WriteAtWithOptions(op.off, op.data, op.fua);
      out := Outcome(ok, []);
    } else if op.DoFlush? {
      var ok := cache.Flush();
      out := Outcome(ok, []);
    } else {
      var r := cache.ProbeOrigin();
      out := Outcome(r.Ok?, []);
    }
    ServiceLawfulExtend(log, EventOf(cache.g.size, rank, op, out.ok));
  }

  /** One operation of the policy thread, none of which touches the origin. */
  method PerformPolicy(cache: WriteThroughCache, op: Op)
    requires cache.Valid() && cache.Budget() && !(op.DoRead? || op.DoWrite? || op.DoFlush? || op.DoProbe?)
    modifies cache, cache.vram
    ensures cache.Valid() && cache.Budget() && (old(cache.InStep()) ==> cache.InStep())
    ensures cache.Rank() == old(cache.Rank())
  {
    match op
    case DoObserve(sample, now) =>
      var _, _ := cache.ObserveGpu(sample, now);
    case DoRelease =>
      var _ := cache.ReleaseCache();
    case DoCap(cap) =>
      cache.SetPhysicalCap(cap);
  }

  /** One operation of a client or of the policy thread. */
  method Perform(cache: WriteThroughCache, op: Op) returns (out: Outcome)
    requires cache.Valid() && cache.Budget()
    modifies cache, cache.origin, cache.vram
    ensures cache.Valid() && cache.Budget() && Effect(op, out.ok, old(MediaOf(cache.origin)), MediaOf(cache.origin))
    ensures LosesBytes(op, out, old(MediaOf(cache.origin)), MediaOf(cache.origin)) ||
            (old(cache.InStep()) ==> cache.InStep())
    ensures op.DoRead? && out.ok && old(cache.InStep()) ==> Answers(op, out.bytes, old(cache.origin.readable))
    ensures Ruled(cache.g.size, old(cache.Rank()), op, out.ok, cache.Rank())
  {
    if op.DoRead? || op.DoWrite? || op.DoFlush? || op.DoProbe? {
      out := PerformRequest(cache, op);
    } else {
      PerformPolicy(cache, op);
      out := Outcome(true, []);
    }
  }

  /** Any run of operations, with faults anywhere: each does what its answer says, I/O is refused from an origin fault
      until three probes have succeeded, and up to the first failed probe that loses bytes every read that succeeded
      returned exactly what the origin alone would have returned at that point. */
  method RunCache(cache: WriteThroughCache, ops: seq<Op>) returns (results: seq<Outcome>, ghost run: Run)
    requires cache.Valid() && cache.Budget() && cache.InStep()
    modifies cache, cache.origin, cache.vram
    ensures cache.Valid() && cache.Budget() && (run.kept == |ops| ==> cache.InStep())
    ensures RunsFrom(cache.g.size, run, ops, results, old(MediaOf(cache.origin)), old(cache.Rank()),
                     MediaOf(cache.origin), cache.Rank())
  {
    results, run := [], Begun(MediaOf(cache.origin), cache.Rank());
    for i := 0 to |ops|
      invariant cache.Valid() && cache.Budget() && (run.kept == i ==> cache.InStep())
      invariant RunsFrom(cache.g.size, run, ops[..i], results, old(MediaOf(cache.origin)), old(cache.Rank()),
                         MediaOf(cache.origin), cache.Rank())
    {
      ghost var m, rank := MediaOf(cache.origin), cache.Rank();
      var out := Perform(cache, ops[i]);
      TakeOneMore(ops, i);
      RunsOn(cache.g.size, run, ops[..i], results, old(MediaOf(cache.origin)), old(cache.Rank()), m, rank, ops[i], out,
             MediaOf(cache.origin), cache.Rank());
      results, run := results + [out], Continued(run, ops[i], out, MediaOf(cache.origin), cache.Rank());
    }
    assert ops[..|ops|] == ops;
  }

  // ---------------------------------------------------------------- the two promises that fail

  /** On any ready cache, a FUA write of no bytes is acknowledged, and it leaves everything durable if and only if
      everything already was. */
  method EmptyFua(cache: WriteThroughCache) returns (ok: bool)
    requires cache.Valid() && cache.originState.Ready?
    modifies cache, cache.origin, cache.vram
    ensures ok && cache.Valid() && cache.origin.readable == old(cache.origin.readable)
    ensures cache.origin.durable == cache.origin.readable <==> old(cache.origin.durable == cache.origin.readable)
  {
    var acknowledged, _ := cache.WriteAtWithOptions(0, [], true);
    ok := acknowledged;
  }

  /** An origin that answers every call with one byte and syncs nothing on its own; its third call loses every dirty
      page. */
  function LazyScript(n: nat): OriginReply {
    OriginReply(n != 2, 1, _ => false, _ => false)
  }

  /** A one-byte cache over such an origin, with a driver that never fails. */
  method LazyCache() returns (cache: WriteThroughCache)
    ensures fresh(cache) && fresh(cache.origin) && fresh(cache.vram)
    ensures cache.Valid() && cache.Budget() && cache.InStep() && cache.originState.Ready? && cache.gpuLog == []
    ensures cache.CachedBytes() == 0
    ensures cache.g == Geometry(1, 1, 1) && cache.physicalCap == 1
    ensures cache.origin.script == LazyScript && cache.origin.calls == 0
    ensures cache.origin.readable == cache.origin.durable == [0]
    ensures forall n :: cache.vram.script(n).ok
  {
    var origin := new Origin(LazyScript, [0]);
    var vram := new VramProvider(_ => VramReply(true, _ => 0));
    var made := NewCache(origin, vram, 1, 1, 1);
    cache := made.value;
  }

  /** A run that breaks the FUA promise: a new cache, a plain write, a FUA write of no bytes.  Both are acknowledged,
      and the written byte is not on disk. */
  method EmptyFuaIsNotDurable() returns (wrote: bool, forced: bool, cache: WriteThroughCache)
    ensures fresh(cache) && cache.Valid() && wrote && forced
    ensures cache.origin.readable == [1] != cache.origin.durable
  {
    cache := LazyCache();
    ghost var applied;
    wrote, applied := cache.WriteAt(0, [1]);
    forced := EmptyFua(cache);
  }

  /** The exact condition for a failed probe: when its sync loses every dirty page, the cache still agrees with the
      origin if and only if no trusted byte was dirty. */
  method LosingProbe(cache: WriteThroughCache)
    requires cache.Valid() && cache.InStep() && cache.ProbeLosesAll(cache.origin.calls)
    modifies cache, cache.origin
    ensures cache.Valid()
    ensures cache.InStep() <==> old(CleanUnderCache(cache.g, cache.chunks, cache.origin.readable, cache.origin.durable))
  {
    FallbackExact(cache.g, cache.chunks, cache.origin.readable, cache.origin.durable);
    var r := cache.ProbeOrigin();
  }

  /** The sample of a card with plenty of room, and what an observation of it does to a one-chunk cache. */
  function AmpleSample(): GpuSample {
    GpuSample(3 * GIB, 0, 0)
  }

  ghost predicate Ample(s: GpuStep) {
    s.cap == 1 && s.sample == Some(AmpleSample()) && s.before == 0
  }

  /** Three such samples make the cache grow, by the policy law alone. */
  lemma GrowsOnThird(log: seq<GpuStep>)
    requires 0 < |log| <= 3 && PolicyLawful(log, 1) && forall i :: 0 <= i < |log| ==> Ample(log[i])
    ensures log[|log| - 1].attempted <==> |log| == 3
    ensures log[|log| - 1].cached == if log[|log| - 1].grew then 1 else 0
    ensures log[|log| - 1].grew ==> log[|log| - 1].attempted
  {
    assert PhysicalTarget(1, Some(AmpleSample())) == 1;
    forall i | 0 <= i < |log| ensures !log[i].restricted && log[i].target == 1 && (i < 2 ==> !log[i].attempted) {
      assert Ample(log[i]) && GrowthLawful(log, 1, i);
    }
    assert GrowthLawful(log, 1, |log| - 1) && Ample(log[|log| - 1]);
    if |log| == 3 {
      assert log[..2][..1] == log[..1];
      assert log[..1][0] == log[0];
      assert LastAttempt(log[..1]).None?;
      assert log[..2][1] == log[1];
    }
  }

  /** One such observation. */
  method ObserveAmple(cache: WriteThroughCache)
    requires cache.Valid() && cache.Budget() && cache.InStep() && cache.CachedBytes() == 0
    requires cache.g == Geometry(1, 1, 1) && cache.physicalCap == 1 && forall n :: cache.vram.script(n).ok
    requires |cache.gpuLog| < 3 && forall i :: 0 <= i < |cache.gpuLog| ==> Ample(cache.gpuLog[i])
    modifies cache`chunks, cache`accessClock, cache`targetBytes, cache`healthySamples, cache`restrictedSamples,
             cache`lastGrowthAt, cache`overTargetSince, cache`cacheState, cache`gpuLog, cache.vram
    ensures cache.Valid() && cache.Budget() && cache.InStep()
    ensures |cache.gpuLog| == old(|cache.gpuLog|) + 1 && forall i :: 0 <= i < |cache.gpuLog| ==> Ample(cache.gpuLog[i])
    ensures cache.CachedBytes() == if |cache.gpuLog| == 3 then 1 else 0
  {
    var _, s := cache.ObserveGpu(Some(AmpleSample()), 0);
    GrowsOnThird(cache.gpuLog);
    assert cache.gpuLog[|cache.gpuLog| - 1] == s;
    assert !cache.vram.Failed(old(cache.vram.calls));
  }

  /** The lazy cache, grown to its only chunk. */
  method GrownCache() returns (cache: WriteThroughCache)
    ensures fresh(cache) && fresh(cache.origin) && fresh(cache.vram)
    ensures cache.Valid() && cache.InStep() && cache.originState.Ready? && cache.CachedBytes() == 1
    ensures cache.g == Geometry(1, 1, 1)
    ensures cache.origin.script == LazyScript && cache.origin.calls == 0 && cache.origin.durable == [0]
    ensures forall n :: cache.vram.script(n).ok
  {
    cache := LazyCache();
    ObserveAmple(cache);
    ObserveAmple(cache);
    ObserveAmple(cache);
  }

  /** Overwrites the only byte; the cache trusts the new one and the disk still holds the old one. */
  method WriteOnlyByte(cache: WriteThroughCache)
    requires cache.Valid() && cache.InStep() && cache.originState.Ready? && cache.CachedBytes() == 1
    requires cache.g == Geometry(1, 1, 1) && forall n :: cache.vram.script(n).ok
    requires cache.origin.script == LazyScript && cache.origin.calls == 0 && cache.origin.durable == [0]
    modifies cache, cache.origin, cache.vram
    ensures cache.Valid() && cache.InStep() && cache.origin.calls == 1
    ensures !CleanUnderCache(cache.g, cache.chunks, cache.origin.readable, cache.origin.durable)
  {
    assert cache.g.Count() == 1 && Residents(cache.chunks) == 1;
    assert Residents(cache.chunks[..0]) == 0;
    var wrote, _ := cache.WriteAt(0, [1]);
    ghost var g, chunks := cache.g, cache.chunks;
    assert Shaped(g, chunks[0], ChunkLen(g, 0));
    PromotedIsTrusted(g, chunks, 0, 1, 0, 1, 0);
    assert Live(chunks[0], 0, 1);
    assert g.View(cache.origin.readable, 0)[0] == 1 && g.View(cache.origin.durable, 0)[0] == 0;
  }

  /** A run that breaks agreement: a new cache grows to its only chunk, takes a write, and the probe that follows fails
      and loses the page.  The cache still trusts the byte that the origin no longer has. */
  method LosingProbeRun() returns (cache: WriteThroughCache)
    ensures fresh(cache) && cache.Valid() && !cache.InStep()
  {
    cache := GrownCache();
    WriteOnlyByte(cache);
    LosingProbe(cache);
  }

  /** A byte in an empty slot is not trusted. */
  lemma EmptyIsUntrusted(g: Geometry, chunks: seq<Chunk>, p: nat, i: nat, r: nat)
    requires 0 < g.block && 0 < g.chunkBytes && i < |chunks| && p == g.Start(i) + r && r < g.chunkBytes
    requires chunks[i].mem.None?
    ensures !Trusted(g, chunks, p)
  {
    DivUnique(p, g.chunkBytes, i, r);
  }

  /** A table that only lost trust keeps both laws. */
  lemma WeakerIsLawful(g: Geometry, before: seq<Chunk>, after: seq<Chunk>, readable: seq<byte>, durable: seq<byte>,
                       ready: bool, dirty: bool)
    requires ShapedTable(g, before) && ShapedTable(g, after) && Weaker(before, after)
    requires |readable| == |durable| == g.size && DiskLaw(g, before, readable, durable, ready, dirty)
    ensures Coherent(g, before, readable) ==> Coherent(g, after, readable)
    ensures DiskLaw(g, after, readable, durable, ready, dirty)
  {
    WeakerKeeps(g, before, after, readable, durable);
  }

  /** A disk that holds what is readable is clean under any cache. */
  lemma FallbackClean(g: Geometry, chunks: seq<Chunk>, image: seq<byte>)
    requires ShapedTable(g, chunks) && |image| == g.size
    ensures CleanUnderCache(g, chunks, image, image)
  {
  }

  /** If one more chunk fits in the device, the first-empty search finds a slot, and that slot has full length. */
  lemma RoomMeansEmptySlot(g: Geometry, chunks: seq<Chunk>, index: nat)
    requires g.Ok() && |chunks| == g.Count() && index <= |chunks|
    requires forall j :: 0 <= j < index ==> chunks[j].mem.Some?
    requires Residents(chunks) * g.chunkBytes + g.chunkBytes <= g.size
    ensures index < |chunks| && g.Start(index) + g.chunkBytes <= g.size
  {
    OneLess(Residents(chunks) + 1, g.chunkBytes);
    ResidentsBound(chunks, index);
    CeilDiv(g.size, g.chunkBytes);
    if index == |chunks| {
      MulLe(index, Residents(chunks), g.chunkBytes);
    } else {
      FirstEmptyIsFull(g, chunks, index);
    }
  }

  lemma ChunkLenMultiple(g: Geometry, i: nat)
    requires g.Ok()
    ensures (ChunkLen(g, i) / g.block) * g.block == ChunkLen(g, i)
  {
    var b, perChunk, blocks := g.block, Quot(g.chunkBytes, g.block), Quot(g.size, g.block);
    WholeBlocks(g.chunkBytes, b);
    WholeBlocks(g.size, b);
    if g.chunkBytes <= SatSub(g.size, g.Start(i)) {
      MultipleDiv(b, perChunk);
    } else if g.Start(i) <= g.size {
      TailBlocks(b, perChunk, blocks, i);
      MultipleDiv(b, blocks - i * perChunk);
    } else {
      MultipleDiv(b, 0);
    }
  }

  lemma WholeBlocks(n: nat, b: nat)
    requires 0 < b && n % b == 0
    ensures n == b * Quot(n, b)
  {
  }

  lemma TailBlocks(b: nat, perChunk: nat, blocks: nat, i: nat)
    ensures b * blocks - i * (b * perChunk) == b * (blocks - i * perChunk)
  {
    assert i * (b * perChunk) == b * (i * perChunk);
  }

  lemma MultipleDiv(b: nat, k: int)
    requires 0 < b && 0 <= b * k
    ensures (b * k / b) * b == b * k
  {
    assert b * k == b * (b * k / b) + b * k % b;
    DivUniqueInt(b * k, b, k);
  }

  lemma DivUniqueInt(n: nat, b: nat, k: int)
    requires 0 < b && n == b * k
    ensures n % b == 0
  {
    assert 0 <= k;
    DivUnique(n, b, k, 0);
  }

  /** The chunks that a range touches are those from the range's first to its last. */
  lemma TouchedChunk(g: Geometry, off: nat, len: nat, i: nat)
    requires g.Ok() && 0 < len && off + len <= g.size
    ensures Quot(off, g.chunkBytes) <= i <= Quot(off + len - 1, g.chunkBytes) <==>
            g.Start(i) < off + len && off < g.Start(i) + g.chunkBytes
  {
    Locate(g, off);
    Locate(g, off + len - 1);
    var first, last := Quot(off, g.chunkBytes), Quot(off + len - 1, g.chunkBytes);
    if i < first {
      NextMultiple(i, first, g.chunkBytes);
    } else if last < i {
      NextMultiple(last, i, g.chunkBytes);
    } else {
      MulLe(first, i, g.chunkBytes);
      MulLe(i, last, g.chunkBytes);
    }
  }
}
