/** The storage environment: a durable origin file and a VRAM provider.

    Both are adversarial.  Each holds a `script` that fixes its answer to its n-th call; every property
    proved of a client is proved for all scripts, so for every way the device can misbehave. */
module Device {
  import opened Bytes

  /** One answer of the origin.  `count` is the byte count a transfer reports (or, when it fails, the bytes
      it applied first), `keep` says which dirty pages a failed sync keeps, `reached` which ones get to disk. */
  datatype OriginReply = OriginReply(ok: bool, count: nat, keep: nat -> bool, reached: nat -> bool)

  /** The answer to a transfer of `n` bytes is an error, no progress, or a claim of more than was asked for. */
  predicate BadTransfer(reply: OriginReply, n: nat) {
    !reply.ok || reply.count == 0 || n < reply.count
  }

  /** Bad for some part of a transfer of `len` bytes. */
  ghost predicate BadWithin(reply: OriginReply, len: nat) {
    exists n :: 0 < n <= len && BadTransfer(reply, n)
  }

  /** A transfer of `n` bytes done in one call, none of which reaches the disk yet. */
  ghost predicate LazyWrite(reply: OriginReply, n: nat) {
    reply.ok && reply.count == n && forall i :: !reply.reached(i)
  }

  /** Each byte is one of two images' bytes: never a third value. */
  ghost predicate Mixed(now: seq<byte>, a: seq<byte>, b: seq<byte>) {
    |now| == |a| == |b| && forall i :: 0 <= i < |now| ==> now[i] == a[i] || now[i] == b[i]
  }

  lemma MixedThrough(now: seq<byte>, a: seq<byte>, mid: seq<byte>, b: seq<byte>)
    requires Mixed(now, a, mid) && Mixed(mid, a, b)
    ensures Mixed(now, a, b)
  {
    forall i | 0 <= i < |now| ensures now[i] == a[i] || now[i] == b[i] {
      assert mid[i] == a[i] || mid[i] == b[i];
    }
  }

  /** A failed sync that loses every dirty page. */
  ghost predicate DropsAll(reply: OriginReply) {
    !reply.ok && forall i :: !reply.keep(i) && !reply.reached(i)
  }

  /** The origin file: `readable` is what a read returns, `durable` what a power cut would leave. */
  class Origin {
    const script: nat -> OriginReply
    var calls: nat
    var readable: seq<byte>
    var durable: seq<byte>

    constructor (script: nat -> OriginReply, bytes: seq<byte>)
      ensures this.script == script && calls == 0 && readable == bytes && durable == bytes
    {
      this.script, calls, readable, durable := script, 0, bytes, bytes;
    }

    ghost predicate Valid()
      reads this
    {
      |durable| == |readable|
    }

    /** Since call number `before` the origin has been called, and its last answer was bad for some part of `len`
        bytes. */
    ghost predicate Misbehaved(before: nat, len: nat)
      reads this`calls
    {
      before < calls && BadWithin(script(calls - 1), len)
    }

    lemma MisbehavedSince(before: nat, mid: nat, len: nat)
      requires before <= mid && 0 < len && Misbehaved(mid, 1)
      ensures Misbehaved(before, len)
    {
      assert BadTransfer(script(calls - 1), 1);
    }

    /** One `pread`: may be short, may fail, may claim more than was asked for. */
    method ReadAt(off: nat, len: nat) returns (r: Result<nat, ()>, bytes: seq<byte>)
      requires Valid() && off + len <= |readable|
      modifies this`calls
      ensures Valid() && calls == old(calls) + 1
      ensures r == if script(old(calls)).ok then Ok(script(old(calls)).count) else Err(())
      ensures r.Ok? && r.value <= len ==> bytes == readable[off..off + r.value]
    {
      var reply := script(calls);
      calls := calls + 1;
      if !reply.ok {
        return Err(()), [];
      }
      return Ok(reply.count), readable[off..off + Min(reply.count, len)];
    }

    /** One `pwrite`: may be short; a failed call may have applied any prefix.  Written bytes may or may not
        already have reached the disk. */
    method WriteAt(off: nat, data: seq<byte>) returns (r: Result<nat, ()>, ghost applied: nat)
      requires Valid() && off + |data| <= |readable|
      modifies this`calls, this`readable, this`durable
      ensures Valid() && |readable| == old(|readable|) && calls == old(calls) + 1
      ensures r == if script(old(calls)).ok then Ok(script(old(calls)).count) else Err(())
      ensures applied <= |data| && readable == Splice(old(readable), off, data[..applied])
      ensures applied == Min(script(old(calls)).count, |data|)
      ensures forall i :: 0 <= i < |durable| ==>
                durable[i] ==
                if off <= i < off + applied && script(old(calls)).reached(i) then readable[i] else old(durable[i])
    {
      var reply := script(calls);
      calls := calls + 1;
      var n := Min(reply.count, |data|);
      applied := n;
      readable := Splice(readable, off, data[..n]);
      durable := seq(|readable|, i requires 0 <= i < |readable| && |durable| == |readable| reads this =>
        if off <= i < off + n && reply.reached(i) then readable[i] else durable[i]);
      r := if reply.ok then Ok(reply.count) else Err(());
    }

    /** `fdatasync`.  A failure may drop any dirty page: its readable bytes fall back to the disk's. */
    method SyncData() returns (ok: bool)
      requires Valid()
      modifies this`calls, this`readable, this`durable
      ensures Valid() && |readable| == old(|readable|) && calls == old(calls) + 1 && ok == script(old(calls)).ok
      ensures ok ==> readable == old(readable) && durable == readable
      ensures Mixed(readable, old(readable), old(durable)) && Mixed(durable, old(readable), old(durable))
      ensures DropsAll(script(old(calls))) ==> readable == old(durable) && durable == old(durable)
      // A page that was clean stays as it was, whatever happens.
      ensures forall i :: 0 <= i < |readable| && old(readable[i]) == old(durable[i])
                ==> readable[i] == old(readable[i]) && durable[i] == old(durable[i])
    {
      var reply := script(calls);
      calls := calls + 1;
      ok := reply.ok;
      if ok {
        durable := readable;
      } else {
        var disk := seq(|readable|, i requires 0 <= i < |readable| && |durable| == |readable| reads this =>
          if reply.reached(i) then readable[i] else durable[i]);
        readable := seq(|readable|, i requires 0 <= i < |readable| && |disk| == |readable| reads this =>
          if reply.keep(i) then readable[i] else disk[i]);
        durable := disk;
      }
    }

    /** Reads the first block, then syncs: both must succeed. */
    method ReadAndSync(block: nat) returns (ok: bool)
      requires Valid() && 0 < block <= |readable|
      modifies this`calls, this`readable, this`durable
      ensures Valid() && |readable| == old(|readable|)
      ensures ok ==> readable == old(readable) && durable == readable
      ensures Mixed(readable, old(readable), old(durable)) && Mixed(durable, old(readable), old(durable))
      ensures !ok ==> Misbehaved(old(calls), block)
      ensures forall i :: 0 <= i < |readable| && old(readable[i]) == old(durable[i])
                ==> readable[i] == old(readable[i]) && durable[i] == old(durable[i])
      ensures script(old(calls)).ok && script(old(calls)).count == block && DropsAll(script(old(calls) + 1)) ==>
                !ok && readable == old(durable)
    {
      var bytes := ReadExactAt(0, block);
      ok := bytes.Ok?;
      if ok {
        ok := SyncData();
        if !ok {
          assert BadTransfer(script(calls - 1), block);
        }
      }
    }

    /** `read_exact_at`: loops over short reads. */
    method ReadExactAt(off: nat, len: nat) returns (r: Result<seq<byte>, ()>)
      requires Valid() && off + len <= |readable|
      modifies this`calls
      ensures Valid() && old(calls) <= calls
      ensures r.Ok? ==> r.value == readable[off..off + len]
      ensures r.Err? ==> Misbehaved(old(calls), len)
      ensures 0 < len && script(old(calls)).ok && script(old(calls)).count == len ==> r.Ok? && calls == old(calls) + 1
    {
      var buf: seq<byte> := [];
      while |buf| < len
        invariant |buf| <= len && Valid()
        invariant buf == readable[off..off + |buf|] && old(calls) <= calls
        invariant buf == [] <==> calls == old(calls)
        invariant script(old(calls)).ok && script(old(calls)).count == len ==>
                    (buf == [] || |buf| == len) && calls <= old(calls) + 1
        decreases len - |buf|
      {
        var read, bytes := ReadAt(off + |buf|, len - |buf|);
        if read.Err? || read.value == 0 || read.value > len - |buf| {
          assert BadTransfer(script(calls - 1), len - |buf|);
          return Err(());
        }
        buf := buf + bytes;
      }
      return Ok(buf);
    }

    /** `write_all_at`: loops over short writes.  Whatever happens, a prefix of `data` has been applied. */
    method WriteAllAt(off: nat, data: seq<byte>) returns (ok: bool, ghost applied: nat)
      requires Valid() && off + |data| <= |readable|
      modifies this`calls, this`readable, this`durable
      ensures Valid() && |readable| == old(|readable|) && old(calls) <= calls
      ensures applied <= |data| && readable == Splice(old(readable), off, data[..applied])
      ensures ok ==> readable == Splice(old(readable), off, data)
      ensures !ok ==> Misbehaved(old(calls), |data|)
      ensures Mixed(durable, readable, old(durable))
      ensures forall i :: 0 <= i < |durable| && !(off <= i < off + |data|) ==> durable[i] == old(durable[i])
      ensures data != [] && LazyWrite(script(old(calls)), |data|) ==>
                ok && durable == old(durable) && calls == old(calls) + 1
    {
      var done := 0;
      applied := 0;
      while done < |data|
        invariant done <= |data| && applied == done && old(calls) <= calls
        invariant Valid() && |readable| == old(|readable|)
        invariant readable == Splice(old(readable), off, data[..done])
        invariant forall i :: 0 <= i < |durable| && !(off <= i < off + done) ==> durable[i] == old(durable[i])
        invariant Mixed(durable, readable, old(durable))
        invariant done == 0 <==> calls == old(calls)
        invariant LazyWrite(script(old(calls)), |data|) && 0 < done ==>
                    done == |data| && durable == old(durable) && calls == old(calls) + 1
        decreases |data| - done
      {
        var written, n := WriteAt(off + done, data[done..]);
        applied := done + n;
        assert data[done..][..n] == data[done..done + n];
        SpliceExtend(old(readable), off, data, done, n);
        if written.Err? || written.value == 0 || written.value > |data| - done {
          assert BadTransfer(script(calls - 1), |data| - done);
          return false, applied;
        }
        done := done + written.value;
      }
      assert data[..done] == data;
      return true, applied;
    }
  }

  /** One answer of the VRAM driver; `noise` is what a failed access leaves behind. */
  datatype VramReply = VramReply(ok: bool, noise: nat -> byte)

  /** A VRAM provider.  A region is a value: its bytes. */
  class VramProvider {
    const script: nat -> VramReply
    var calls: nat

    constructor (script: nat -> VramReply)
      ensures this.script == script && calls == 0
    {
      this.script, calls := script, 0;
    }

    /** Some call since number `before` was answered with a failure. */
    ghost predicate Failed(before: nat)
      reads this
    {
      exists k :: before <= k < calls && !script(k).ok
    }

    lemma FailedSince(before: nat, mid: nat)
      requires before <= mid
      ensures Failed(mid) ==> Failed(before)
    {
    }

    method Alloc(bytes: nat) returns (r: Option<seq<byte>>)
      modifies this
      ensures calls == old(calls) + 1 && (r.None? ==> !script(old(calls)).ok)
      ensures r.Some? ==> |r.value| == bytes
    {
      var reply := script(calls);
      calls := calls + 1;
      r := if reply.ok then Some(seq(bytes, i requires 0 <= i => reply.noise(i))) else None;
    }

    method Zero(mem: seq<byte>) returns (ok: bool, after: seq<byte>)
      modifies this
      ensures calls == old(calls) + 1 && (!ok ==> !script(old(calls)).ok) && |after| == |mem|
      ensures ok ==> forall i :: 0 <= i < |after| ==> after[i] == 0
    {
      var reply := script(calls);
      calls := calls + 1;
      ok := reply.ok;
      after := if ok then seq(|mem|, _ => 0) else seq(|mem|, i requires 0 <= i => reply.noise(i));
    }

    /** The precondition is the memory-safety obligation of every caller. */
    method ReadAt(mem: seq<byte>, off: nat, len: nat) returns (r: Option<seq<byte>>)
      requires off + len <= |mem|
      modifies this
      ensures calls == old(calls) + 1 && (r.None? ==> !script(old(calls)).ok)
      ensures r.Some? ==> r.value == mem[off..off + len]
    {
      var reply := script(calls);
      calls := calls + 1;
      r := if reply.ok then Some(mem[off..off + len]) else None;
    }

    /** A failed write may scramble the whole range it was given. */
    method WriteAt(mem: seq<byte>, off: nat, data: seq<byte>) returns (ok: bool, after: seq<byte>)
      requires off + |data| <= |mem|
      modifies this
      ensures calls == old(calls) + 1 && (!ok ==> !script(old(calls)).ok) && |after| == |mem|
      ensures ok ==> after == Splice(mem, off, data)
      ensures forall i :: 0 <= i < |mem| && !(off <= i < off + |data|) ==> after[i] == mem[i]
    {
      var reply := script(calls);
      calls := calls + 1;
      ok := reply.ok;
      after := Splice(mem, off, if ok then data else seq(|data|, i requires 0 <= i => reply.noise(i)));
    }
  }
}
