/** The sparse VRAM device: an on-demand chunk table that behaves as a flat, zero-initialised disk under a
    commit cap. */
module SparseVram {
  import opened Bytes
  import opened Arithmetic
  import opened Device

  const MAX_CHUNKS: nat := 1_000_000

  datatype Chunk = Chunk(mem: Option<seq<byte>>, written: bool, lastWrite: Option<nat>)

  datatype Config = Config(capacity: u64, chunkBytes: u64, blockSize: nat, reserveFloor: u64, commitCap: Option<u64>)

  /** Why a chunk could not be made live, in the order the checks are made. */
  datatype Refusal = OverBudget | OverCap | UnderFloor | NoMemInfo | NoAlloc | NoZero

  datatype WriteResult =
    | Written
    | OutOfRange
    | Stopped(done: nat, why: Refusal)
    | Faulted(done: nat, n: nat)

  /** The host: an optional budget gate and the driver's report of free memory, both adversarial. */
  class Host {
    const hasGate: bool
    const gate: nat -> bool
    const free: nat -> Option<u64>
    var calls: nat
    /** The last answers given. */
    var allowed: bool
    var reported: Option<u64>

    /** A host that allows every commit and reports all the memory there can be. */
    ghost predicate Generous() {
      !hasGate && forall n :: free(n) == Some(U64_MAX)
    }

    method AllowCommit() returns (ok: bool)
      modifies this
      ensures ok == allowed && (!hasGate ==> ok)
    {
      ok := !hasGate || gate(calls);
      calls, allowed := calls + 1, ok;
    }

    method MemInfo() returns (r: Option<u64>)
      modifies this`calls, this`reported
      ensures r == reported == free(old(calls))
    {
      r := free(calls);
      calls, reported := calls + 1, r;
    }

    constructor (hasGate: bool, gate: nat -> bool, free: nat -> Option<u64>)
      ensures this.hasGate == hasGate && this.gate == gate && this.free == free
    {
      this.hasGate, this.gate, this.free, calls, allowed, reported := hasGate, gate, free, 0, true, None;
    }
  }

  function LiveCount(chunks: seq<Chunk>): nat {
    if chunks == [] then 0 else LiveCount(chunks[..|chunks| - 1]) + if chunks[|chunks| - 1].mem.Some? then 1 else 0
  }

  lemma {:induction false} LiveCountUpdate(chunks: seq<Chunk>, i: nat, c: Chunk)
    requires i < |chunks|
    ensures LiveCount(chunks[i := c]) ==
              LiveCount(chunks) - (if chunks[i].mem.Some? then 1 else 0) + (if c.mem.Some? then 1 else 0)
  {
    var n := |chunks| - 1;
    if i == n {
      assert chunks[i := c][..n] == chunks[..n];
    } else {
      assert chunks[i := c][..n] == chunks[..n][i := c];
      LiveCountUpdate(chunks[..n], i, c);
    }
  }

  lemma {:induction false} NoneLive(chunks: seq<Chunk>)
    ensures (forall i :: 0 <= i < |chunks| ==> chunks[i].mem.None?) <==> LiveCount(chunks) == 0
  {
    if chunks != [] {
      NoneLive(chunks[..|chunks| - 1]);
    }
  }

  lemma {:induction false} LiveCountBound(chunks: seq<Chunk>)
    ensures LiveCount(chunks) <= |chunks|
    ensures LiveCount(chunks) == |chunks| <==> forall i :: 0 <= i < |chunks| ==> chunks[i].mem.Some?
  {
    if chunks != [] {
      LiveCountBound(chunks[..|chunks| - 1]);
    }
  }

  /** While some chunk is empty, what is committed is less than the capacity. */
  lemma CommittedFits(chunks: seq<Chunk>, capacity: nat, chunkBytes: nat, idx: nat)
    requires Shaped(chunks, capacity, chunkBytes) && idx < |chunks| && chunks[idx].mem.None?
    ensures LiveCount(chunks) * chunkBytes < capacity
  {
    LiveCountBound(chunks);
    CeilDiv(capacity, chunkBytes);
    OneLess(|chunks|, chunkBytes);
    MulLe(LiveCount(chunks), |chunks| - 1, chunkBytes);
  }

  ghost predicate Shaped(chunks: seq<Chunk>, capacity: nat, chunkBytes: nat) {
    && 0 < chunkBytes && |chunks| == CeilQuot(capacity, chunkBytes)
    && forall i :: 0 <= i < |chunks| && chunks[i].mem.Some? ==> |chunks[i].mem.value| == chunkBytes
  }

  lemma Inside(capacity: nat, chunkBytes: nat, p: nat)
    requires 0 < chunkBytes && p < capacity
    ensures Quot(p, chunkBytes) < CeilQuot(capacity, chunkBytes)
    ensures p == Quot(p, chunkBytes) * chunkBytes + p % chunkBytes && 0 <= p % chunkBytes < chunkBytes
  {
    var q := Quot(p, chunkBytes);
    assert p == chunkBytes * q + p % chunkBytes;
    CeilDiv(capacity, chunkBytes);
    if CeilQuot(capacity, chunkBytes) <= q {
      MulLe(CeilQuot(capacity, chunkBytes), q, chunkBytes);
    }
  }

  /** The byte a reader sees at `p`: stored if its chunk is live, zero otherwise. */
  function ByteAt(chunks: seq<Chunk>, chunkBytes: nat, p: nat): byte
    requires 0 < chunkBytes && Quot(p, chunkBytes) < |chunks|
    requires chunks[Quot(p, chunkBytes)].mem.Some? ==> p % chunkBytes < |chunks[Quot(p, chunkBytes)].mem.value|
  {
    var c := chunks[Quot(p, chunkBytes)];
    if c.mem.Some? then c.mem.value[p % chunkBytes] else 0
  }

  /** The flat disk the table stands for. */
  ghost function Flat(chunks: seq<Chunk>, capacity: nat, chunkBytes: nat): (disk: seq<byte>)
    requires Shaped(chunks, capacity, chunkBytes)
    ensures |disk| == capacity
  {
    seq(capacity, p requires 0 <= p < capacity => Inside(capacity, chunkBytes, p); ByteAt(chunks, chunkBytes, p))
  }

  /** A byte of chunk `i` on the flat disk. */
  lemma FlatAt(chunks: seq<Chunk>, capacity: nat, chunkBytes: nat, i: nat, r: nat)
    requires Shaped(chunks, capacity, chunkBytes) && i < |chunks| && r < chunkBytes && i * chunkBytes + r < capacity
    ensures Flat(chunks, capacity, chunkBytes)[i * chunkBytes + r] ==
              if chunks[i].mem.Some? then chunks[i].mem.value[r] else 0
  {
    DivUnique(i * chunkBytes + r, chunkBytes, i, r);
  }

  /** Writing into a live chunk is an overwrite of the flat disk. */
  lemma WritePiece(chunks: seq<Chunk>, capacity: nat, chunkBytes: nat, i: nat, rel: nat, piece: seq<byte>, c: Chunk)
    requires Shaped(chunks, capacity, chunkBytes) && i < |chunks| && chunks[i].mem.Some?
    requires rel + |piece| <= chunkBytes && i * chunkBytes + rel + |piece| <= capacity
    requires c.mem == Some(Splice(chunks[i].mem.value, rel, piece))
    ensures Shaped(chunks[i := c], capacity, chunkBytes)
    ensures Flat(chunks[i := c], capacity, chunkBytes) ==
              Splice(Flat(chunks, capacity, chunkBytes), i * chunkBytes + rel, piece)
  {
    var a, b := Flat(chunks[i := c], capacity, chunkBytes),
      Splice(Flat(chunks, capacity, chunkBytes), i * chunkBytes + rel, piece);
    forall p | 0 <= p < capacity ensures a[p] == b[p] {
      Inside(capacity, chunkBytes, p);
      PositionInChunk(p, chunkBytes, i);
    }
  }

  /** Device byte `p` lies in chunk `i` exactly when its quotient is `i`. */
  lemma PositionInChunk(p: nat, c: nat, i: nat)
    requires 0 < c
    ensures Quot(p, c) == i ==> p == i * c + p % c
    ensures Quot(p, c) < i ==> p < i * c
    ensures Quot(p, c) > i ==> i * c + c <= p
  {
    var q := Quot(p, c);
    assert p == c * q + p % c;
    if q < i {
      NextMultiple(q, i, c);
    } else if i < q {
      NextMultiple(i, q, c);
    }
  }

  /** Making an empty chunk live with zeroed memory, or dropping one that reads as zeros, is invisible. */
  lemma ZeroedIsEmpty(chunks: seq<Chunk>, capacity: nat, chunkBytes: nat, i: nat, c: Chunk)
    requires Shaped(chunks, capacity, chunkBytes) && i < |chunks| && chunks[i].mem.None?
    requires c.mem.Some? && |c.mem.value| == chunkBytes && forall k :: 0 <= k < chunkBytes ==> c.mem.value[k] == 0
    ensures Shaped(chunks[i := c], capacity, chunkBytes)
    ensures Flat(chunks[i := c], capacity, chunkBytes) == Flat(chunks, capacity, chunkBytes)
  {
    var a, b := Flat(chunks[i := c], capacity, chunkBytes), Flat(chunks, capacity, chunkBytes);
    forall p | 0 <= p < capacity ensures a[p] == b[p] {
      Inside(capacity, chunkBytes, p);
    }
  }

  const MIB: nat := 0x10_0000

  /** `commit_cap_bytes_from_env`, for the number of MiB that the environment names, if any. */
  function EnvCap(mib: Option<u64>): (cap: u64)
    ensures cap <= U64_MAX / 4
  {
    if mib.Some? then Max(256, Min(mib.value, 0x1_0000)) * MIB else U64_MAX / 4
  }

  /** The configured cap or the environment's, no more than the capacity and room for one chunk at least. */
  function CapOf(config: Config, envMib: Option<u64>): nat {
    var cap := if config.commitCap.Some? then config.commitCap.value else EnvCap(envMib);
    Max(Min(cap, config.capacity), config.chunkBytes)
  }

  class SparseVramBackend {
    const provider: VramProvider
    const host: Host
    const capacity: nat
    const chunkBytes: nat
    const reserveFloor: u64
    const commitCap: nat
    var chunks: seq<Chunk>

    ghost predicate Valid()
      reads this
    {
      && 0 < capacity <= U64_MAX && chunkBytes <= U64_MAX && commitCap <= U64_MAX
      && Shaped(chunks, capacity, chunkBytes)
      // The test against the cap saturates, so the largest cap of all holds nothing back.
      && (CommittedBytes() <= commitCap || commitCap == U64_MAX)
    }

    /** The flat disk this device stands for. */
    ghost function Disk(): (disk: seq<byte>)
      requires Valid()
      reads this
      ensures |disk| == capacity
    {
      Flat(chunks, capacity, chunkBytes)
    }

    function CommittedBytes(): nat
      reads this
    {
      LiveCount(chunks) * chunkBytes
    }

    /** An empty device: every byte reads as zero and nothing is committed. */
    constructor (provider: VramProvider, host: Host, config: Config, envMib: Option<u64>)
      requires Acceptable(config)
      ensures Valid() && this.provider == provider && this.host == host && capacity == config.capacity
      ensures chunkBytes == config.chunkBytes
      ensures CommittedBytes() == 0 && forall p :: 0 <= p < capacity ==> Disk()[p] == 0
      ensures commitCap == CapOf(config, envMib)
    {
      this.provider, this.host, capacity, chunkBytes := provider, host, config.capacity, config.chunkBytes;
      reserveFloor := config.reserveFloor;
      commitCap := CapOf(config, envMib);
      chunks := seq(CeilQuot(config.capacity, config.chunkBytes), _ => Chunk(None, false, None));
      new;
      NoneLive(chunks);
      forall p | 0 <= p < capacity ensures Flat(chunks, capacity, chunkBytes)[p] == 0 {
        Inside(capacity, chunkBytes, p);
      }
    }

    /** Brings chunk `idx` to life if it is empty.  Nothing a reader can see changes; a refusal changes nothing at
        all; a commit happens only if the gate allows it, the cap covers it and the reserve floor stays free. */
    method EnsureLive(idx: nat) returns (r: Result<(), Refusal>)
      requires Valid() && idx < |chunks|
      modifies this`chunks, host, provider
      ensures Valid() && Disk() == old(Disk())
      ensures r.Ok? ==> chunks[idx].mem.Some?
      ensures forall j :: 0 <= j < |chunks| && j != idx ==> chunks[j] == old(chunks)[j]
      ensures old(chunks)[idx].mem.Some? ==> r.Ok? && chunks == old(chunks)
      ensures r.Err? ==> chunks == old(chunks)
      ensures r == Err(OverBudget) ==> !host.allowed
      ensures r == Err(OverCap) ==> CommittedBytes() <= U64_MAX && SatAdd(CommittedBytes(), chunkBytes) > commitCap
      ensures r == Err(NoMemInfo) ==> host.reported.None?
      ensures r == Err(UnderFloor) ==> host.reported.Some? && host.reported.value < SatAdd(reserveFloor, chunkBytes)
      ensures r == Err(NoAlloc) || r == Err(NoZero) ==> provider.Failed(old(provider.calls))
      ensures old(provider.calls) <= provider.calls
      ensures r.Ok? && old(chunks)[idx].mem.None? ==>
                && host.allowed && host.reported.Some? && SatAdd(reserveFloor, chunkBytes) <= host.reported.value
                && CommittedBytes() == old(CommittedBytes()) + chunkBytes
                && old(CommittedBytes()) <= U64_MAX && SatAdd(old(CommittedBytes()), chunkBytes) <= commitCap
      ensures host.Generous() && (forall n :: provider.script(n).ok) && commitCap == U64_MAX ==> r.Ok?
    {
      if chunks[idx].mem.Some? {
        return Ok(());
      }
      var allowed := host.AllowCommit();
      if !allowed {
        return Err(OverBudget);
      }
      CommittedFits(chunks, capacity, chunkBytes, idx);
      if SatAdd(CommittedBytes(), chunkBytes) > commitCap {
        return Err(OverCap);
      }
      var free := host.MemInfo();
      if free.None? {
        return Err(NoMemInfo);
      }
      if free.value < SatAdd(reserveFloor, chunkBytes) {
        return Err(UnderFloor);
      }
      var mem := provider.Alloc(chunkBytes);
      if mem.None? {
        return Err(NoAlloc);
      }
      var ok, zeroed := provider.Zero(mem.value);
      if !ok {
        return Err(NoZero);
      }
      var c := chunks[idx].(mem := Some(zeroed));
      LiveCountUpdate(chunks, idx, c);
      OneLess(LiveCount(chunks[idx := c]), chunkBytes);
      ZeroedIsEmpty(chunks, capacity, chunkBytes, idx, c);
      chunks := chunks[idx := c];
      return Ok(());
    }

    /** The chunk that holds byte `abs`, the offset in it, and how much of `rest` fits there. */
    method Split(abs: nat, rest: nat) returns (idx: nat, rel: nat, n: nat)
      requires Valid() && 0 < rest && abs + rest <= capacity
      ensures idx == Quot(abs, chunkBytes) < |chunks| && abs == idx * chunkBytes + rel && rel < chunkBytes
      ensures 0 < n <= rest && rel + n <= chunkBytes && (n == rest || rel + n == chunkBytes)
    {
      Inside(capacity, chunkBytes, abs);
      idx := Quot(abs, chunkBytes);
      rel := abs - idx * chunkBytes;
      n := Min(rest, chunkBytes - rel);
    }

    /** One chunk's share of a read; an empty chunk reads as zeros without touching the driver. */
    method ReadChunk(idx: nat, rel: nat, n: nat) returns (piece: Option<seq<byte>>)
      requires Valid() && idx < |chunks| && rel + n <= chunkBytes && idx * chunkBytes + rel + n <= capacity
      modifies provider
      ensures piece.Some? ==> piece.value == Disk()[idx * chunkBytes + rel..idx * chunkBytes + rel + n]
      ensures piece.None? ==> chunks[idx].mem.Some? && provider.Failed(old(provider.calls))
      ensures old(provider.calls) <= provider.calls && (chunks[idx].mem.None? ==> provider.calls == old(provider.calls))
    {
      piece := Some(seq(n, _ => 0));
      if chunks[idx].mem.Some? {
        piece := provider.ReadAt(chunks[idx].mem.value, rel, n);
      }
      if piece.Some? {
        PieceOfDisk(chunks, capacity, chunkBytes, idx, rel, n, piece.value);
      }
    }

    /** Reads return the flat disk's bytes, across live and empty chunks alike; only the driver can make one fail. */
    method ReadAt(off: nat, len: nat) returns (r: Result<seq<byte>, ()>)
      requires Valid()
      modifies provider
      ensures r.Ok? ==> (len == 0 && r.value == []) || (off + len <= capacity && r.value == Disk()[off..off + len])
      ensures r.Err? ==> 0 < len && (off + len > capacity || provider.Failed(old(provider.calls)))
    {
      if len == 0 {
        return Ok([]);
      }
      if off + len > capacity {
        return Err(());
      }
      var buf: seq<byte> := [];
      while |buf| < len
        invariant |buf| <= len && old(provider.calls) <= provider.calls
        invariant buf == Disk()[off..off + |buf|]
      {
        var idx, rel, n := Split(off + |buf|, len - |buf|);
        var piece := ReadChunk(idx, rel, n);
        if piece.None? {
          return Err(());
        }
        buf := buf + piece.value;
      }
      return Ok(buf);
    }

    /** A write is applied whole, or stops at the start of the chunk that was refused, or faults inside one chunk. */
    method WriteAt(off: nat, data: seq<byte>, now: nat) returns (r: WriteResult)
      requires Valid()
      modifies this`chunks, host, provider
      ensures Valid()
      ensures r.OutOfRange? <==> data != [] && off + |data| > capacity
      ensures r.OutOfRange? || data == [] ==> chunks == old(chunks)
      ensures r.Written? && data != [] ==> Disk() == Splice(old(Disk()), off, data)
      ensures r.Stopped? ==>
                && r.done < |data| && off + |data| <= capacity && Disk() == Splice(old(Disk()), off, data[..r.done])
                && (r.done == 0 || (off + r.done) % chunkBytes == 0)
                && Quot(off + r.done, chunkBytes) < |chunks| && chunks[Quot(off + r.done, chunkBytes)].mem.None?
      ensures r.Faulted? ==>
                && provider.Failed(old(provider.calls))
                && r.done + r.n <= |data| && off + |data| <= capacity
                && forall p :: 0 <= p < capacity && !(off + r.done <= p < off + r.done + r.n) ==>
                     Disk()[p] == Splice(old(Disk()), off, data[..r.done])[p]
    {
      if data == [] {
        return Written;
      }
      if off + |data| > capacity {
        return OutOfRange;
      }
      ghost var disk := Disk();
      var done := 0;
      assert data[..0] == [] && data[..|data|] == data;
      while done < |data|
        invariant done <= |data| && Valid() && old(provider.calls) <= provider.calls
        invariant SplicedTo(Disk(), disk, off, data, done)
        invariant done == 0 || done == |data| || (off + done) % chunkBytes == 0
      {
        var idx, rel, n := Split(off + done, |data| - done);
        var live := EnsureLive(idx);
        if live.Err? {
          return Stopped(done, live.error);
        }
        var upto := done + n;
        SplicedMore(Disk(), disk, off, data, done, upto);
        var ok := WriteChunk(idx, rel, data[done..upto], now);
        if !ok {
          return Faulted(done, n);
        }
        NextBoundary(off + done, idx, rel, n, chunkBytes);
        done := upto;
      }
      return Written;
    }

    /** One chunk's share of a write. */
    method WriteChunk(idx: nat, rel: nat, piece: seq<byte>, now: nat) returns (ok: bool)
      requires Valid() && idx < |chunks| && chunks[idx].mem.Some?
      requires rel + |piece| <= chunkBytes && idx * chunkBytes + rel + |piece| <= capacity
      modifies this`chunks, provider
      ensures Valid() && LiveCount(chunks) == old(LiveCount(chunks))
      ensures old(provider.calls) <= provider.calls && (!ok ==> provider.Failed(old(provider.calls)))
      ensures ok ==> Disk() == Splice(old(Disk()), idx * chunkBytes + rel, piece) && chunks[idx].lastWrite == Some(now)
      ensures forall p :: 0 <= p < capacity && !(idx * chunkBytes + rel <= p < idx * chunkBytes + rel + |piece|) ==>
                Disk()[p] == old(Disk())[p]
    {
      var mem := chunks[idx].mem.value;
      var after;
      ok, after := provider.WriteAt(mem, rel, piece);
      var c := if ok then Chunk(Some(after), true, Some(now)) else chunks[idx].(mem := Some(after));
      ghost var stored := after[rel..rel + |piece|];
      assert after == Splice(mem, rel, stored);
      WritePiece(chunks, capacity, chunkBytes, idx, rel, stored, c);
      assert ok ==> stored == piece;
      LiveCountUpdate(chunks, idx, c);
      chunks := chunks[idx := c];
    }

    /** Frees every live chunk; the device reads as zeros afterwards. */
    method FreeAllLive() returns (freed: u64)
      requires Valid()
      modifies this`chunks
      ensures Valid() && freed == Min(old(CommittedBytes()), U64_MAX) && CommittedBytes() == 0
      ensures forall p :: 0 <= p < capacity ==> Disk()[p] == 0
    {
      freed := 0;
      ghost var gone: nat := 0;
      for i := 0 to |chunks|
        invariant |chunks| == |old(chunks)| && Valid()
        invariant forall j :: 0 <= j < i ==> chunks[j].mem.None?
        invariant gone + CommittedBytes() == old(CommittedBytes()) && freed == Min(gone, U64_MAX)
      {
        if chunks[i].mem.Some? {
          LiveCountUpdate(chunks, i, Chunk(None, false, None));
          OneLess(LiveCount(chunks), chunkBytes);
          chunks := chunks[i := Chunk(None, false, None)];
          freed, gone := SatAdd(freed, chunkBytes), gone + chunkBytes;
        }
      }
      NoneLive(chunks);
      forall p | 0 <= p < capacity ensures Disk()[p] == 0 {
        Inside(capacity, chunkBytes, p);
      }
    }

    /** Reclaims only an unused device, and then all of it or nothing: when free memory is below the floor, or when
        there is something live and none of it was written within `idle`. */
    method TryReclaim(usedKb: nat, free: Option<nat>, floor: nat, idle: nat, now: nat) returns (freed: u64)
      requires Valid()
      modifies this`chunks
      ensures Valid()
      ensures usedKb > 0 ==> freed == 0 && chunks == old(chunks)
      ensures usedKb == 0 && ReclaimDue(old(chunks), free, floor, idle, now) ==>
                freed == Min(old(CommittedBytes()), U64_MAX) && CommittedBytes() == 0 &&
                  forall p :: 0 <= p < capacity ==> Disk()[p] == 0
      ensures !ReclaimDue(old(chunks), free, floor, idle, now) ==> freed == 0 && chunks == old(chunks)
    {
      if usedKb > 0 {
        return 0;
      }
      var anyLive, allIdle := false, true;
      for i := 0 to |chunks|
        invariant anyLive <==> exists j :: 0 <= j < i && chunks[j].mem.Some?
        invariant allIdle <==> forall j :: 0 <= j < i && chunks[j].mem.Some? ==> Idle(chunks[j], idle, now)
      {
        if chunks[i].mem.Some? {
          anyLive := true;
          if !Idle(chunks[i], idle, now) {
            allIdle := false;
          }
        }
      }
      if (free.Some? && free.value < floor) || (anyLive && allIdle) {
        freed := FreeAllLive();
      } else {
        freed := 0;
      }
    }
  }

  /** The configurations `new_with_config` accepts. */
  predicate Acceptable(config: Config) {
    && 0 < config.capacity && 0 < config.chunkBytes
    && 0 < config.blockSize && config.chunkBytes % config.blockSize == 0
    && CeilQuot(config.capacity, config.chunkBytes) <= MAX_CHUNKS
  }

  datatype ConfigError = NoCapacity | BadChunkSize | TooManyChunks

  /** `new_with_config`: an empty device, or the reason why not. */
  method NewWithConfig(provider: VramProvider, host: Host, config: Config, envMib: Option<u64>)
    returns (r: Result<SparseVramBackend, ConfigError>)
    ensures r.Ok? <==> Acceptable(config)
    ensures r.Ok? ==> fresh(r.value) && r.value.Valid() && r.value.provider == provider && r.value.host == host
    ensures r.Ok? ==>
              && r.value.capacity == config.capacity && r.value.chunkBytes == config.chunkBytes
              && r.value.CommittedBytes() == 0
    ensures r.Ok? ==> r.value.commitCap == CapOf(config, envMib)
    ensures r.Ok? ==> forall p :: 0 <= p < config.capacity ==> r.value.Disk()[p] == 0
  {
    if config.capacity == 0 {
      return Err(NoCapacity);
    }
    if config.chunkBytes == 0 || config.blockSize == 0 || config.chunkBytes % config.blockSize != 0 {
      return Err(BadChunkSize);
    }
    if CeilQuot(config.capacity, config.chunkBytes) > MAX_CHUNKS {
      return Err(TooManyChunks);
    }
    var device := new SparseVramBackend(provider, host, config, envMib);
    return Ok(device);
  }

  // ---------------------------------------------------------------- the commit cap

  /** All chunks together fit a machine word, or the cap is below the largest one. */
  ghost predicate CapHolds(commitCap: nat, capacity: nat, chunkBytes: nat)
    requires 0 < chunkBytes
  {
    commitCap < U64_MAX || CeilQuot(capacity, chunkBytes) * chunkBytes <= U64_MAX
  }

  /** Then no valid device has committed more than its cap. */
  lemma WithinCap(device: SparseVramBackend)
    requires device.Valid() && CapHolds(device.commitCap, device.capacity, device.chunkBytes)
    ensures device.CommittedBytes() <= device.commitCap
  {
    LiveCountBound(device.chunks);
    MulLe(LiveCount(device.chunks), |device.chunks|, device.chunkBytes);
  }

  /** Otherwise touching every chunk, with a host and a driver that always oblige, commits more than the cap: the
      condition is exact. */
  method CommitEverything(device: SparseVramBackend)
    requires device.Valid() && !CapHolds(device.commitCap, device.capacity, device.chunkBytes)
    requires device.host.Generous() && forall n :: device.provider.script(n).ok
    modifies device`chunks, device.host, device.provider
    ensures device.Valid() && device.CommittedBytes() > device.commitCap
  {
    for i := 0 to |device.chunks|
      invariant device.Valid() && forall j :: 0 <= j < i ==> device.chunks[j].mem.Some?
    {
      var _ := device.EnsureLive(i);
    }
    LiveCountBound(device.chunks);
  }

  /** In terms of the configuration: the cap holds unless it is set explicitly to the largest word, for a device of
      that size whose chunks do not divide it.  A cap taken from the environment always holds. */
  lemma CapHoldsExactly(config: Config, envMib: Option<u64>)
    requires Acceptable(config)
    ensures CapHolds(CapOf(config, envMib), config.capacity, config.chunkBytes) <==>
              !(&& config.commitCap == Some(U64_MAX) && config.capacity == U64_MAX
                && config.capacity % config.chunkBytes != 0)
  {
    var n, c := config.capacity, config.chunkBytes;
    var q := CeilQuot(n, c);
    CeilDiv(n, c);
    if n == U64_MAX {
      if n % c == 0 {
        assert n == c * Quot(n, c);
        DivUnique(n + c - 1, c, Quot(n, c), c - 1);
      } else if q * c == n {
        DivUnique(n, c, q, 0);
      }
    } else if c == U64_MAX {
      DivUnique(n + c - 1, c, 1, n - 1);
    }
  }

  /** The smallest device that exceeds its cap: the whole address space in two chunks, with that cap configured. */
  method OverTheCap() returns (device: SparseVramBackend)
    ensures fresh(device) && device.Valid() && device.commitCap == U64_MAX < device.CommittedBytes()
  {
    var provider := new VramProvider(_ => VramReply(true, _ => 0));
    var host := new Host(false, _ => true, _ => Some(U64_MAX));
    var half := 0x8000_0000_0000_0000;
    assert CeilQuot(U64_MAX, half) == 2;
    var made := NewWithConfig(provider, host, Config(U64_MAX, half, 1, 0, Some(U64_MAX)), None);
    device := made.value;
    CommitEverything(device);
  }

  predicate Idle(c: Chunk, idle: nat, now: nat) {
    c.lastWrite.None? || SatSub(now, c.lastWrite.value) >= idle
  }

  ghost predicate ReclaimDue(chunks: seq<Chunk>, free: Option<nat>, floor: nat, idle: nat, now: nat) {
    || (free.Some? && free.value < floor)
    || ((exists j :: 0 <= j < |chunks| && chunks[j].mem.Some?) &&
        forall j :: 0 <= j < |chunks| && chunks[j].mem.Some? ==> Idle(chunks[j], idle, now))
  }

  /** What one chunk contributes to a read. */
  lemma PieceOfDisk(chunks: seq<Chunk>, capacity: nat, chunkBytes: nat, idx: nat, rel: nat, n: nat, piece: seq<byte>)
    requires Shaped(chunks, capacity, chunkBytes) && idx < |chunks|
    requires rel + n <= chunkBytes && idx * chunkBytes + rel + n <= capacity && |piece| == n
    requires if chunks[idx].mem.Some? then piece == chunks[idx].mem.value[rel..rel + n]
             else forall k :: 0 <= k < n ==> piece[k] == 0
    ensures piece == Flat(chunks, capacity, chunkBytes)[idx * chunkBytes + rel..idx * chunkBytes + rel + n]
  {
    var slice := Flat(chunks, capacity, chunkBytes)[idx * chunkBytes + rel..idx * chunkBytes + rel + n];
    forall k | 0 <= k < n ensures piece[k] == slice[k] {
      FlatAt(chunks, capacity, chunkBytes, idx, rel + k);
    }
  }

  /** Filling a chunk to its end lands on a chunk boundary. */
  lemma NextBoundary(abs: nat, idx: nat, rel: nat, n: nat, c: nat)
    requires 0 < c && abs == idx * c + rel && rel + n <= c
    ensures rel + n == c ==> (abs + n) % c == 0
  {
    if rel + n == c {
      DivUnique(abs + n, c, idx + 1, 0);
    }
  }
}
