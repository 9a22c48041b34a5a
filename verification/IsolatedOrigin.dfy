/** Authoritative origin I/O with an isolated, bounded, revocable cache worker.

    The worker is a concurrent process: it drains its FIFO data lane in order, may evict whatever it likes
    whenever it likes, and answers or does not.  It runs between any two client steps. */
module IsolatedOrigin {
  import opened Arithmetic
  import opened Bytes
  import opened Device
  import opened CachePolicy
  import opened MediumLaw

  // ---------------------------------------------------------------- the worker and its lanes

  /** Data-lane messages. */
  datatype Request = Read(offset: nat, len: nat) | Update(offset: nat, data: seq<byte>)
                   | Promote(offset: nat, data: seq<byte>)

  predicate Covers(m: Request, p: nat) {
    !m.Read? && m.offset <= p < m.offset + |m.data|
  }

  /** After draining `queue`, a worker that starts from `contents` may hold byte `v` at `p`.  An update replaces
      what was there, a promotion may be taken or ignored, and anything may be evicted. */
  predicate May(contents: map<nat, byte>, queue: seq<Request>, p: nat, v: byte) {
    if queue == [] then p in contents && contents[p] == v
    else
      var m, before := queue[|queue| - 1], queue[..|queue| - 1];
      if !Covers(m, p) then May(contents, before, p, v)
      else m.data[p - m.offset] == v || (m.Promote? && May(contents, before, p, v))
  }

  /** How the worker may use the message at the head of its lane. */
  ghost predicate Handles(m: Request, before: map<nat, byte>, after: map<nat, byte>) {
    forall p :: p in after ==>
      if Covers(m, p) then m.data[p - m.offset] == after[p] || (m.Promote? && p in before && before[p] == after[p])
      else p in before && before[p] == after[p]
  }

  /** Handling the head message, in any permitted way, adds no possibility. */
  lemma {:induction false} HandleHead(before: map<nat, byte>, after: map<nat, byte>, queue: seq<Request>, p: nat,
                                      v: byte)
    requires queue != [] && Handles(queue[0], before, after) && May(after, queue[1..], p, v)
    ensures May(before, queue, p, v)
  {
    var n := |queue| - 1;
    if n == 0 {
      assert queue[..0] == [];
    } else {
      var m := queue[n];
      assert queue[1..][n - 1] == m && queue[1..][..n - 1] == queue[..n][1..];
      if !Covers(m, p) || (m.Promote? && m.data[p - m.offset] != v) {
        HandleHead(before, after, queue[..n], p, v);
      }
    }
  }

  /** Eviction adds no possibility. */
  lemma {:induction false} Evicting(before: map<nat, byte>, after: map<nat, byte>, queue: seq<Request>, p: nat, v: byte)
    requires after.Keys <= before.Keys && (forall q :: q in after ==> after[q] == before[q])
    requires May(after, queue, p, v)
    ensures May(before, queue, p, v)
  {
    if queue != [] {
      var n := |queue| - 1;
      if !Covers(queue[n], p) || (queue[n].Promote? && queue[n].data[p - queue[n].offset] != v) {
        Evicting(before, after, queue[..n], p, v);
      }
    }
  }

  /** Whatever the worker may come to hold is what the image holds. */
  ghost predicate Settles(contents: map<nat, byte>, queue: seq<Request>, image: seq<byte>) {
    forall p: nat, v: byte :: May(contents, queue, p, v) ==> p < |image| && v == image[p]
  }

  /** Announcing an overwrite keeps a lane settled with respect to the overwritten image. */
  lemma UpdateSettles(contents: map<nat, byte>, queue: seq<Request>, image: seq<byte>, off: nat, data: seq<byte>)
    requires Settles(contents, queue, image) && off + |data| <= |image|
    ensures Settles(contents, queue + [Update(off, data)], Splice(image, off, data))
  {
    var next, after := queue + [Update(off, data)], Splice(image, off, data);
    assert next[..|next| - 1] == queue;
    forall p: nat, v: byte | May(contents, next, p, v) ensures p < |after| && v == after[p] {
      assert Covers(Update(off, data), p) || May(contents, queue, p, v);
    }
  }

  /** So does offering bytes the image holds, or asking for some. */
  lemma HarmlessSettles(contents: map<nat, byte>, queue: seq<Request>, image: seq<byte>, m: Request)
    requires Settles(contents, queue, image)
    requires m.Read? || (m.offset + |m.data| <= |image| && m.data == image[m.offset..m.offset + |m.data|])
    ensures Settles(contents, queue + [m], image)
  {
    var next := queue + [m];
    assert next[..|next| - 1] == queue;
    forall p: nat, v: byte | May(contents, next, p, v) ensures p < |image| && v == image[p] {
      assert May(contents, queue, p, v) || (Covers(m, p) && m.data[p - m.offset] == v);
      if Covers(m, p) {
        assert image[m.offset..m.offset + |m.data|][p - m.offset] == image[p];
      }
    }
  }

  /** When only reads are left in the lane, what the worker holds is what the image holds. */
  lemma LastRead(contents: map<nat, byte>, m: Request, image: seq<byte>, q: nat)
    requires m.Read? && Settles(contents, [m], image) && q in contents
    ensures q < |image| && contents[q] == image[q]
  {
    assert [m][..0] == [];
    assert May(contents, [m], q, contents[q]);
  }

  /** What the worker does in one micro-step; `pick` decides per byte what it keeps. */
  datatype WorkerMove = HandleNext(pick: nat -> nat, answer: Answer) | Evict(keep: nat -> bool)
                      | ReceiveControl | AnswerControl(which: nat, freed: bool) | Hang

  /** How a served read is answered: honestly, with a miss, with an error, or with bytes of the wrong length. */
  datatype Answer = Honest | AsMiss | AsError | Garbage(bytes: seq<byte>)

  datatype ReadReply = Got(bytes: seq<byte>) | Missing | Broken

  datatype Sent = Accepted | Full | Disconnected

  class Worker {
    const capacity: nat
    const script: nat -> WorkerMove
    /** How many micro-steps fit between client steps, and when the worker disappears. */
    const bursts: nat -> nat
    const gone: nat -> bool
    /** For a rendezvous lane (capacity 0): whether the worker is waiting for a message. */
    const waiting: nat -> bool
    var clock: nat
    var requests: seq<Request>
    var contents: map<nat, byte>
    var connected: bool
    /** The disable request in the one-slot control lane, by number, and those received and not yet answered. */
    var control: Option<nat>
    var received: seq<nat>
    /** The number of the client's latest disable request; `ack` is the answer to that one. */
    var asked: nat
    var reply: Option<ReadReply>
    var ack: Option<bool>
    /** The worker has given up everything it held to answer a disable request. */
    ghost var released: bool
    /** How the client's last message on the data lane went. */
    ghost var sent: Sent

    constructor (capacity: nat, script: nat -> WorkerMove, bursts: nat -> nat, gone: nat -> bool, waiting: nat -> bool)
      ensures requests == [] && contents == map[] && connected && control.None? && received == []
      ensures reply.None? && ack.None?
    {
      this.capacity, this.script, this.bursts, this.gone, this.waiting := capacity, script, bursts, gone, waiting;
      clock, requests, contents, connected, reply, ack := 0, [], map[], true, None, None;
      control, received, asked := None, [], 0;
      released, sent := false, Accepted;
    }

    /** One micro-step.  If the lane was settled it stays settled, and an answer of the right length to the last
        read in the lane is what the image holds. */
    method Step(ghost image: seq<byte>, ghost off: nat, ghost len: nat)
      modifies this`clock, this`requests, this`contents, this`connected, this`reply, this`ack
      modifies this`control, this`received, this`released
      ensures old(Settles(contents, requests, image)) ==> Settles(contents, requests, image)
      ensures old(Awaiting(image, off, len)) ==> Awaiting(image, off, len)
      ensures clock == old(clock) + 1 && connected == (old(connected) && !gone(old(clock)))
      ensures old(NoReads()) ==> NoReads()
      ensures ack == Some(true) && old(ack) != Some(true) ==> released
      ensures old(released) ==> released
      ensures old(Pending()) || old(ack).Some? ==> Pending() || ack.Some?
    {
      var move := script(clock);
      if gone(clock) {
        connected := false;
      }
      clock := clock + 1;
      if !connected {
        return;
      }
      match move
      case HandleNext(pick, answer) => TakeNext(pick, answer, image, off, len);
      case Evict(keep) => Forget(keep, image);
      case ReceiveControl => TakeControl();
      case AnswerControl(which, freed) => AnswerReceived(which, freed, image);
      case Hang =>
    }

    /** Serves the message at the head of the lane. */
    method TakeNext(pick: nat -> nat, answer: Answer, ghost image: seq<byte>, ghost off: nat, ghost len: nat)
      modifies this`contents, this`requests, this`reply
      ensures old(Settles(contents, requests, image)) ==> Settles(contents, requests, image)
      ensures old(Awaiting(image, off, len)) ==> Awaiting(image, off, len)
      ensures old(NoReads()) ==> NoReads()
    {
      if requests == [] {
        return;
      }
      ghost var before := contents;
      ghost var queue := requests;
      var m := requests[0];
      if m.Read? {
        Answer(m.offset, m.len, answer);
        if old(Awaiting(image, off, len)) {
          assert queue == [m];
          forall q | q in contents ensures q < |image| && contents[q] == image[q] {
            LastRead(contents, m, image, q);
          }
        }
      } else {
        contents := Absorb(contents, m, pick);
      }
      assert Handles(m, before, contents);
      requests := requests[1..];
      forall p: nat, v: byte | May(contents, requests, p, v) ensures May(before, queue, p, v) {
        HandleHead(before, contents, queue, p, v);
      }
    }

    /** Evicts whatever it does not keep. */
    method Forget(keep: nat -> bool, ghost image: seq<byte>)
      modifies this`contents
      ensures forall p :: p in contents <==> p in old(contents) && keep(p)
      ensures old(Settles(contents, requests, image)) ==> Settles(contents, requests, image)
    {
      ghost var before := contents;
      contents := map p | p in contents && keep(p) :: contents[p];
      forall p: nat, v: byte | May(contents, requests, p, v) ensures May(before, requests, p, v) {
        Evicting(before, contents, requests, p, v);
      }
    }

    /** The latest disable request waits to be received or answered. */
    ghost predicate Pending()
      reads this`control, this`received, this`asked
    {
      control == Some(asked) || asked in received
    }

    /** Receives the request in the control lane, which is free again from then on. */
    method TakeControl()
      modifies this`control, this`received
      ensures control.None? && received == old(received) + if old(control).Some? then [old(control).value] else []
    {
      if control.Some? {
        received, control := received + [control.value], None;
      }
    }

    /** Answers one received disable request, having let go of everything if it says so; the client hears only the
        answer to its latest one. */
    method AnswerReceived(which: nat, freed: bool, ghost image: seq<byte>)
      modifies this`contents, this`received, this`ack, this`released
      ensures old(Settles(contents, requests, image)) ==> Settles(contents, requests, image)
      ensures which >= |old(received)| ==> received == old(received) && ack == old(ack) && contents == old(contents)
      ensures which < |old(received)| ==>
                && received == old(received)[..which] + old(received)[which + 1..]
                && ack == (if old(received)[which] == asked then Some(freed) else old(ack))
                && (freed ==> released && contents == map[])
      ensures old(released) ==> released
    {
      if which < |received| {
        var request := received[which];
        received := received[..which] + received[which + 1..];
        if freed {
          Forget(_ => false, image);
          released := true;
        }
        if request == asked {
          ack := Some(freed);
        }
      }
    }

    /** Runs for as long as the scheduler lets it. */
    method Run(ghost image: seq<byte>, ghost off: nat, ghost len: nat)
      modifies this`clock, this`requests, this`contents, this`connected, this`reply, this`ack
      modifies this`control, this`received, this`released
      ensures old(Settles(contents, requests, image)) ==> Settles(contents, requests, image)
      ensures old(Awaiting(image, off, len)) ==> Awaiting(image, off, len)
      ensures old(NoReads()) ==> NoReads()
      ensures ack == Some(true) && old(ack) != Some(true) ==> released
      ensures !old(connected) ==> !connected
      ensures old(Pending()) || old(ack).Some? ==> Pending() || ack.Some?
    {
      var n := bursts(clock);
      for i := 0 to n
        invariant old(Settles(contents, requests, image)) ==> Settles(contents, requests, image)
        invariant old(Awaiting(image, off, len)) ==> Awaiting(image, off, len)
        invariant old(NoReads()) ==> NoReads()
        invariant ack == Some(true) && old(ack) != Some(true) ==> released
        invariant !old(connected) ==> !connected
        invariant old(Pending()) || old(ack).Some? ==> Pending() || ack.Some?
      {
        Step(image, off, len);
      }
    }

    ghost predicate NoReads()
      reads this
    {
      forall i :: 0 <= i < |requests| ==> !requests[i].Read?
    }

    /** `try_send` on the data lane: never blocks, fails on a full or closed lane. */
    method TrySend(m: Request, ghost image: seq<byte>) returns (r: Sent, ghost queue: seq<Request>)
      modifies this
      ensures old(Settles(contents, requests, image)) ==> Settles(contents, queue, image)
      ensures old(NoReads()) ==> forall i :: 0 <= i < |queue| ==> !queue[i].Read?
      ensures requests == if r.Accepted? then queue + [m] else queue
      ensures r == if !connected then Disconnected else if HasRoom(queue) then Accepted else Full
      ensures sent == r && reply.None? && (!old(connected) ==> !connected)
    {
      Run(image, 0, 0);
      queue := requests;
      reply := None;
      r := if !connected then Disconnected else if HasRoom(requests) then Accepted else Full;
      sent := r;
      if r.Accepted? {
        requests := requests + [m];
      }
    }

    /** The lane can take one more message. */
    predicate HasRoom(queue: seq<Request>)
      reads this`clock
    {
      |queue| < capacity || (capacity == 0 && queue == [] && waiting(clock))
    }

    /** `try_send` of a disable request on the one-slot control lane, then a bounded wait for its answer.  Earlier
        requests may still wait for theirs; a request that has been received no longer fills the lane. */
    method RequestDisable(ghost image: seq<byte>) returns (sent: bool, answer: Option<bool>, ghost laneFree: bool)
      modifies this
      ensures answer == ack && (answer == Some(true) ==> sent && released)
      ensures sent <==> laneFree
      ensures if sent then answer.Some? || Pending() else answer.None?
    {
      Run(image, 0, 0);
      asked, ack, released := asked + 1, None, false;
      laneFree := connected && control.None?;
      if !connected || control.Some? {
        return false, None, laneFree;
      }
      control := Some(asked);
      Run(image, 0, 0);
      return true, ack, laneFree;
    }

    /** The client waits for the read at the end of the lane, or its answer has arrived and can be trusted. */
    ghost predicate Awaiting(image: seq<byte>, off: nat, len: nat)
      reads this
    {
      && Settles(contents, requests, image) && off + len <= |image|
      && (if reply.Some? then
            && (reply.value.Got? && |reply.value.bytes| == len ==> reply.value.bytes == image[off..off + len])
            && forall i :: 0 <= i < |requests| ==> !requests[i].Read?
          else
            && requests != [] && requests[|requests| - 1] == Read(off, len)
            && forall i :: 0 <= i < |requests| - 1 ==> !requests[i].Read?)
    }

    /** No usable answer to a read of `len` bytes: none in time, an error, or the wrong length. */
    ghost predicate NoAnswer(len: nat)
      reads this
    {
      reply.None? || reply.value.Broken? || (reply.value.Got? && |reply.value.bytes| != len)
    }

    method Answer(off: nat, len: nat, answer: Answer)
      modifies this`reply
      ensures reply.Some?
      ensures reply.value.Got? && |reply.value.bytes| == len ==>
                forall q :: off <= q < off + len ==> q in contents && contents[q] == reply.value.bytes[q - off]
    {
      var have := forall q :: off <= q < off + len ==> q in contents;
      match answer
      case Honest =>
        if have {
          reply := Some(Got(seq(len, k requires 0 <= k < len && off + k in contents reads this => contents[off + k])));
        } else {
          reply := Some(Missing);
        }
      case AsMiss => reply := Some(Missing);
      case AsError => reply := Some(Broken);
      case Garbage(bytes) => reply := Some(if |bytes| == len then Missing else Got(bytes));
    }
  }

  /** Applies a mutation: per byte, 0 drops it, 1 stores it, anything else leaves what a promotion found. */
  function Absorb(contents: map<nat, byte>, m: Request, pick: nat -> nat): map<nat, byte>
    requires !m.Read?
  {
    var stored := map p | m.offset <= p < m.offset + |m.data| && pick(p) == 1 :: m.data[p - m.offset];
    var kept := map p | p in contents && (!Covers(m, p) || (m.Promote? && pick(p) > 1)) :: contents[p];
    kept + stored
  }

  // ---------------------------------------------------------------- the bounded client

  datatype CacheRead = Hit(bytes: seq<byte>) | Miss | ReadFailed

  datatype CacheMutation = Taken | Skipped | MutationFailed

  class BoundedCacheClient {
    const worker: Worker
    var state: CacheState
    /** A disable acknowledgement has been received. */
    ghost var acked: bool
    /** A lane fault has revoked this client. */
    ghost var faulted: bool

    constructor (worker: Worker)
      requires worker.requests == [] && worker.contents == map[]
      ensures Valid() && state.Active? && this.worker == worker && !acked && !faulted
      ensures forall image :: InStep(image)
    {
      this.worker, state, acked, faulted := worker, Active, false, false;
    }

    ghost predicate Valid()
      reads this
    {
      !state.Restricted? && (state.Off? <==> acked) && (faulted ==> !state.Active?)
    }

    /** While the client is active, the worker's contents with all queued messages applied agree with the image
        wherever they are defined. */
    ghost predicate InStep(image: seq<byte>)
      reads this, worker
    {
      state.Active? ==> Settles(worker.contents, worker.requests, image) && worker.NoReads()
    }

    /** What holds of every step: off means acknowledged for good, and activity is never regained. */
    twostate predicate Monotone()
      reads this
    {
      && Valid()
      && (old(acked) ==> acked && state.Off?) && (old(faulted) ==> faulted)
      && (!old(state).Active? ==> !state.Active?)
    }

    /** Any lane fault revokes the client. */
    method Fail()
      requires Valid() && state.Active?
      modifies this`state, this`faulted
      ensures Monotone() && state.Unavailable? && faulted
    {
      state, faulted := Unavailable, true;
    }

    /** A bounded read.  A hit returns image bytes; a full or closed lane, a timeout, an error or a reply of the
        wrong length revokes the client. */
    method Read(off: nat, len: nat, ghost image: seq<byte>) returns (r: CacheRead)
      requires Valid() && off + len <= |image|
      modifies this`state, this`faulted, worker
      ensures Monotone() && (old(InStep(image)) ==> InStep(image))
      ensures r.Hit? ==> state.Active? && |r.bytes| == len
      ensures r.Hit? && old(InStep(image)) ==> r.bytes == image[off..off + len]
      ensures r.ReadFailed? <==> old(state).Active? && !state.Active?
      ensures r.ReadFailed? <==> old(state).Active? && worker.NoAnswer(len)
      ensures old(state).Active? && !worker.sent.Accepted? ==> r.ReadFailed?
      ensures old(state).Active? && !old(worker.connected) ==> r.ReadFailed?
      ensures r.ReadFailed? ==> faulted
    {
      if !state.Active? {
        return Miss;
      }
      ghost var queue;
      var sent;
      sent, queue := worker.TrySend(Request.Read(off, len), image);
      if !sent.Accepted? {
        Fail();
        return ReadFailed;
      }
      if old(InStep(image)) {
        HarmlessSettles(worker.contents, queue, image, Request.Read(off, len));
      }
      worker.Run(image, off, len);
      if worker.reply == Some(Missing) {
        return Miss;
      }
      if worker.reply.Some? && worker.reply.value.Got? && |worker.reply.value.bytes| == len {
        return Hit(worker.reply.value.bytes);
      }
      Fail();
      return ReadFailed;
    }

    /** Announces an overwrite.  If the lane was in step before the origin changed, it is in step with the changed
        origin, or the client is revoked. */
    method Update(off: nat, data: seq<byte>, ghost image: seq<byte>) returns (r: CacheMutation)
      requires Valid() && off + |data| <= |image|
      modifies this`state, this`faulted, worker
      ensures Monotone() && (old(InStep(image)) ==> InStep(Splice(image, off, data)))
      ensures r.MutationFailed? <==> old(state).Active? && !state.Active?
      ensures r.MutationFailed? ==> faulted
      ensures old(state).Active? ==> (r.MutationFailed? <==> !worker.sent.Accepted?)
      ensures old(state).Active? && !old(worker.connected) ==> r.MutationFailed?
      ensures r.Skipped? <==> !old(state).Active?
      ensures r.Skipped? ==> state == old(state)
    {
      ghost var queue;
      r, queue := SendMutation(Request.Update(off, data), image);
      if r.Taken? && old(InStep(image)) {
        UpdateSettles(worker.contents, queue, image, off, data);
      }
    }

    /** Offers bytes just read from the origin. */
    method Promote(off: nat, data: seq<byte>, ghost image: seq<byte>) returns (r: CacheMutation)
      requires Valid() && off + |data| <= |image| && data == image[off..off + |data|]
      modifies this`state, this`faulted, worker
      ensures Monotone() && (old(InStep(image)) ==> InStep(image))
      ensures r.MutationFailed? <==> old(state).Active? && !state.Active?
      ensures r.MutationFailed? ==> faulted
      ensures old(state).Active? ==> (r.MutationFailed? <==> !worker.sent.Accepted?)
      ensures old(state).Active? && !old(worker.connected) ==> r.MutationFailed?
      ensures r.Skipped? <==> !old(state).Active?
      ensures r.Skipped? ==> state == old(state)
    {
      ghost var queue;
      r, queue := SendMutation(Request.Promote(off, data), image);
      if r.Taken? && old(InStep(image)) {
        HarmlessSettles(worker.contents, queue, image, Request.Promote(off, data));
      }
    }

    method SendMutation(m: Request, ghost image: seq<byte>) returns (r: CacheMutation, ghost queue: seq<Request>)
      requires Valid() && !m.Read?
      modifies this`state, this`faulted, worker
      ensures Monotone()
      ensures r.MutationFailed? <==> old(state).Active? && !state.Active?
      ensures r.MutationFailed? ==> faulted
      ensures old(state).Active? ==> (r.MutationFailed? <==> !worker.sent.Accepted?)
      ensures old(state).Active? && !old(worker.connected) ==> r.MutationFailed?
      ensures r.Skipped? <==> !old(state).Active?
      ensures r.Skipped? ==> state == old(state)
      ensures !r.Skipped? ==>
                worker.sent == if !worker.connected then Disconnected else if worker.HasRoom(queue) then Accepted
                  else Full
      ensures r.Taken? ==> worker.requests == queue + [m]
      ensures r.Taken? && old(InStep(image)) ==> Settles(worker.contents, queue, image) && worker.NoReads()
    {
      if !state.Active? {
        return Skipped, [];
      }
      var sent;
      sent, queue := worker.TrySend(m, image);
      if sent.Accepted? {
        return Taken, queue;
      }
      Fail();
      return MutationFailed, queue;
    }

    /** Asks the worker to let go.  The client is off exactly if an acknowledgement has ever been received, and
        stuck if this one was not. */
    method Disable(ghost image: seq<byte>) returns (r: CacheMutation)
      requires Valid()
      modifies this`state, this`acked, worker
      ensures Monotone() && !state.Active?
      ensures r.Skipped? <==> old(state).Off?
      ensures r.Taken? ==> state.Off? && worker.released
      ensures !old(state).Off? ==> (r.Taken? <==> worker.ack == Some(true))
      ensures r.MutationFailed? <==> state.Stuck?
    {
      if state.Off? {
        return Skipped;
      }
      var sent, answer, _ := worker.RequestDisable(image);
      if answer == Some(true) {
        state, acked := Off, true;
        return Taken;
      }
      state := Stuck;
      return MutationFailed;
    }
  }

  // ---------------------------------------------------------------- the authoritative backend

  class AuthoritativeOrigin {
    const origin: Origin
    const cache: BoundedCacheClient
    const size: nat
    const block: nat
    var originState: OriginState
    var probeSuccesses: nat
    var originDirty: bool
    /** Every call so far. */
    ghost var log: seq<Event>

    constructor (origin: Origin, cache: BoundedCacheClient, size: nat, block: nat)
      requires 0 < block <= size
      ensures this.origin == origin && this.cache == cache && this.size == size && this.block == block
      ensures Valid() <==>
                origin.Valid() && |origin.readable| == size && origin.durable == origin.readable && cache.Valid()
      ensures InStep() <==> cache.InStep(origin.readable)
      ensures log == [] && originState.Ready? && !originDirty
    {
      this.origin, this.cache, this.size, this.block := origin, cache, size, block;
      originState, probeSuccesses, originDirty, log := Ready, 0, false, [];
    }

    ghost predicate Valid()
      reads this, origin, cache
    {
      && origin.Valid() && |origin.readable| == size && 0 < block <= size && cache.Valid()
      && ServiceLawful(log) && StateAfter(log) == (originState, probeSuccesses)
      && (originState.Ready? && !originDirty ==> origin.durable == origin.readable)
      // An origin fault has revoked the cache for good.
      && (!originState.Ready? || ProbesSinceFault(log).Some? ==> !cache.state.Active?)
    }

    /** The origin's authority state and its probe counter. */
    ghost function Rank(): (OriginState, nat)
      reads this
    {
      (originState, probeSuccesses)
    }

    /** While the client is active, the worker agrees with the origin. */
    ghost predicate InStep()
      reads this, origin, cache, cache.worker
    {
      cache.InStep(origin.readable)
    }

    /** A served call takes the cache out of service only after a lane fault, and then asks the worker to let go. */
    ghost predicate RevokedForCause(before: CacheState)
      reads cache
    {
      before.Active? && !cache.state.Active? ==> cache.faulted && (cache.state.Off? || cache.state.Stuck?)
    }

    ghost method Record(e: Event)
      requires ServiceLawful(log) && (e.Served? ==> StateAfter(log).0.Ready?)
      modifies this`log
      ensures ServiceLawful(log) && log == old(log) + [e]
      ensures StateAfter(log) == NextAuthority(old(StateAfter(log)), e)
      ensures !e.Faulted? ==> ProbesSinceFault(log).Some? == old(ProbesSinceFault(log)).Some?
    {
      ServiceLawfulExtend(log, e);
      log := log + [e];
      assert log[..|log| - 1] == old(log);
    }

    /** Succeeds only after a disable acknowledgement has been received, now or earlier. */
    method ReleaseCache() returns (ok: bool)
      requires Valid()
      modifies cache, cache.worker
      ensures Valid() && InStep() && cache.Monotone()
      ensures ok <==> cache.acked
      ensures ok && !old(cache.acked) ==> cache.worker.released
    {
      var r := cache.Disable(origin.readable);
      ok := !r.MutationFailed?;
    }

    method MarkOriginFailed()
      requires cache.Valid() && ServiceLawful(log)
      modifies this`originState, this`probeSuccesses, this`log, cache, cache.worker
      ensures originState.Failed? && probeSuccesses == 0 && log == old(log) + [Faulted]
      ensures ServiceLawful(log) && StateAfter(log) == (originState, probeSuccesses)
      ensures cache.Monotone() && !cache.state.Active?
    {
      originState, probeSuccesses := Failed, 0;
      Record(Faulted);
      var _ := cache.Disable(origin.readable);
    }

    /** One read+sync probe; unlike the in-process cache, a failed one revokes the cache. */
    method ProbeOrigin() returns (r: Result<OriginState, ()>)
      requires Valid()
      modifies this`originState, this`probeSuccesses, this`originDirty, this`log, origin, cache, cache.worker
      ensures Valid() && (old(InStep()) ==> InStep()) && cache.Monotone()
      ensures r.Ok? ==>
                && log == old(log) + [Probed] && r.value == originState
                && origin.durable == origin.readable == old(origin.readable) && !originDirty
      ensures r.Err? ==>
                log == old(log) + [Faulted] && !cache.state.Active? && origin.Misbehaved(old(origin.calls), block)
      ensures Mixed(origin.readable, old(origin.readable), old(origin.durable))
      ensures Mixed(origin.durable, old(origin.readable), old(origin.durable))
    {
      var ok := origin.ReadAndSync(block);
      if !ok {
        MarkOriginFailed();
        return Err(());
      }
      originDirty := false;
      if !originState.Ready? {
        probeSuccesses := probeSuccesses + 1;
        if probeSuccesses >= 3 {
          originState, probeSuccesses := Ready, 0;
        } else {
          originState := Degraded;
        }
      }
      Record(Probed);
      return Ok(originState);
    }

    /** A successful read, hit or not, returns exactly the origin's bytes. */
    method ReadAt(off: nat, len: nat) returns (r: Result<seq<byte>, ()>)
      requires Valid()
      modifies this`originState, this`probeSuccesses, this`log, origin`calls, cache, cache.worker
      ensures Valid() && (old(InStep()) ==> InStep()) && cache.Monotone()
      ensures r.Ok? && old(InStep()) ==> off + len <= size && r.value == origin.readable[off..off + len]
      ensures off + len > size || !old(originState).Ready? ==> r.Err? && log == old(log) + [Event.Refused]
      ensures r.Ok? ==> log == old(log) + [Served]
      ensures r.Err? && off + len <= size && old(originState).Ready? ==>
                log == old(log) + [Faulted] && !cache.state.Active? && origin.Misbehaved(old(origin.calls), len)
      ensures r.Ok? ==> RevokedForCause(old(cache.state))
    {
      if off + len > size || !originState.Ready? {
        Record(Event.Refused);
        return Err(());
      }
      if len == 0 {
        Record(Served);
        return Ok([]);
      }
      var hit := cache.Read(off, len, origin.readable);
      if hit.Hit? {
        Record(Served);
        return Ok(hit.bytes);
      }
      if hit.ReadFailed? {
        var _ := cache.Disable(origin.readable);
      }
      r := ReadFallback(off, len);
    }

    /** The origin path of a read: read, then offer the bytes to the worker. */
    method ReadFallback(off: nat, len: nat) returns (r: Result<seq<byte>, ()>)
      requires Valid() && originState.Ready? && off + len <= size
      modifies this`originState, this`probeSuccesses, this`log, origin`calls, cache, cache.worker
      ensures Valid() && (old(InStep()) ==> InStep()) && cache.Monotone()
      ensures r.Ok? ==> r.value == origin.readable[off..off + len] && log == old(log) + [Served]
      ensures r.Ok? ==>
                && (old(cache.state).Active? ==> RevokedForCause(old(cache.state)))
                && (!old(cache.state).Active? ==> cache.state == old(cache.state))
      ensures r.Err? ==>
                log == old(log) + [Faulted] && !cache.state.Active? && origin.Misbehaved(old(origin.calls), len)
    {
      r := origin.ReadExactAt(off, len);
      if r.Err? {
        MarkOriginFailed();
        return;
      }
      var promoted := cache.Promote(off, r.value, origin.readable);
      if promoted.MutationFailed? {
        var _ := cache.Disable(origin.readable);
      }
      Record(Served);
    }

    /** A write, optionally forced to disk.  The worker is told before the next read, or is cut off. */
    method WriteAt(off: nat, data: seq<byte>, fua: bool) returns (ok: bool, ghost n: nat)
      requires Valid()
      modifies this`originState, this`probeSuccesses, this`originDirty, this`log, origin, cache, cache.worker
      ensures Valid() && (old(InStep()) ==> InStep()) && cache.Monotone()
      ensures off + |data| > size || !old(originState).Ready? ==>
                !ok && log == old(log) + [Event.Refused] && origin.readable == old(origin.readable)
      ensures ok ==> log == old(log) + [Served] && origin.readable == Splice(old(origin.readable), off, data)
      ensures Written(old(origin.readable), old(origin.durable), off, data, n, fua, ok, origin.readable, origin.durable)
      ensures ok && fua ==>
                (origin.durable == origin.readable <==> 0 < |data| || old(origin.durable == origin.readable))
      ensures !ok && off + |data| <= size && old(originState).Ready? ==>
                log == old(log) + [Faulted] && !cache.state.Active? && origin.Misbehaved(old(origin.calls), |data|)
      ensures ok ==> RevokedForCause(old(cache.state))
    {
      if off + |data| > size || !originState.Ready? {
        Record(Event.Refused);
        return false, 0;
      }
      if data == [] {
        Record(Served);
        return true, 0;
      }
      ghost var image := origin.readable;
      ok, n := WriteOrigin(off, data, fua);
      if !ok {
        return;
      }
      var told := cache.Update(off, data, image);
      if told.MutationFailed? {
        var _ := cache.Disable(origin.readable);
      }
      Record(Served);
    }

    /** The origin's part of a write: all of it, forced to disk if so requested, or the cache is cut off. */
    method WriteOrigin(off: nat, data: seq<byte>, fua: bool) returns (ok: bool, ghost n: nat)
      requires Valid() && originState.Ready? && off + |data| <= size && data != []
      modifies this`originState, this`probeSuccesses, this`originDirty, this`log, origin, cache, cache.worker
      ensures Valid() && cache.Monotone()
      ensures Written(old(origin.readable), old(origin.durable), off, data, n, fua, ok, origin.readable, origin.durable)
      ensures ok && fua ==> origin.durable == origin.readable
      ensures ok ==>
                && originState.Ready? && log == old(log) && cache.state == old(cache.state)
                && cache.acked == old(cache.acked)
                && (forall image :: old(cache.InStep(image)) ==> cache.InStep(image))
      ensures !ok ==>
                log == old(log) + [Faulted] && !cache.state.Active? && origin.Misbehaved(old(origin.calls), |data|)
    {
      ok, n := origin.WriteAllAt(off, data);
      if !ok {
        MarkOriginFailed();
        return;
      }
      originDirty := true;
      if fua {
        ghost var mid, wrote, disk := origin.calls, origin.readable, origin.durable;
        ok := SyncDirtyOrigin();
        if !ok {
          origin.MisbehavedSince(old(origin.calls), mid, |data|);
          MixedThrough(origin.readable, wrote, disk, old(origin.durable));
          MixedThrough(origin.durable, wrote, disk, old(origin.durable));
        }
      }
    }

    method SyncDirtyOrigin() returns (ok: bool)
      requires Valid() && originState.Ready?
      modifies this`originState, this`probeSuccesses, this`originDirty, this`log, origin, cache, cache.worker
      ensures Valid() && cache.Monotone()
      ensures ok ==>
                && origin.durable == origin.readable == old(origin.readable) && !originDirty && originState.Ready?
                && log == old(log)
      ensures ok ==> cache.state == old(cache.state) && cache.acked == old(cache.acked) &&
                     (forall image :: old(cache.InStep(image)) ==> cache.InStep(image))
      ensures !ok ==> log == old(log) + [Faulted] && !cache.state.Active? && origin.Misbehaved(old(origin.calls), 1)
      ensures Mixed(origin.readable, old(origin.readable), old(origin.durable))
      ensures Mixed(origin.durable, old(origin.readable), old(origin.durable))
    {
      if !originDirty {
        return true;
      }
      ok := origin.SyncData();
      assert !ok ==> BadTransfer(origin.script(origin.calls - 1), 1);
      if ok {
        originDirty := false;
      } else {
        MarkOriginFailed();
      }
    }

    /** A successful flush leaves every acknowledged write durable. */
    method Flush() returns (ok: bool)
      requires Valid()
      modifies this`originState, this`probeSuccesses, this`originDirty, this`log, origin, cache, cache.worker
      ensures Valid() && (old(InStep()) ==> InStep()) && cache.Monotone()
      ensures ok ==> origin.durable == origin.readable == old(origin.readable) && log == old(log) + [Served]
      ensures !old(originState).Ready? ==> !ok && log == old(log) + [Event.Refused]
      ensures !ok && old(originState).Ready? ==>
                log == old(log) + [Faulted] && !cache.state.Active? && origin.Misbehaved(old(origin.calls), 1)
      ensures Mixed(origin.readable, old(origin.readable), old(origin.durable))
      ensures Mixed(origin.durable, old(origin.readable), old(origin.durable))
    {
      if !originState.Ready? {
        Record(Event.Refused);
        return false;
      }
      ok := SyncDirtyOrigin();
      if ok {
        Record(Served);
      }
    }
  }

  /** `new`: refuses exactly the geometries without whole blocks.  The backend starts out lawful exactly when the origin
      has the stated length and no unsynced bytes. */
  method NewBackend(origin: Origin, cache: BoundedCacheClient, size: u64, block: nat)
    returns (r: Result<AuthoritativeOrigin, ()>)
    ensures r.Ok? <==> 0 < size && 0 < block && size % block == 0
    ensures r.Ok? ==> fresh(r.value) && r.value.origin == origin && r.value.cache == cache
    ensures r.Ok? ==> (r.value.Valid() <==>
                         origin.Valid() && |origin.readable| == size && origin.durable == origin.readable &&
                           cache.Valid())
    ensures r.Ok? ==> (r.value.InStep() <==> cache.InStep(origin.readable))
  {
    if size == 0 || block == 0 || size % block != 0 {
      return Err(());
    }
    BlockFits(size, block);
    var backend := new AuthoritativeOrigin(origin, cache, size, block);
    return Ok(backend);
  }

  // ---------------------------------------------------------------- whole runs

  /** What a client can ask of this backend. */
  predicate IsRequest(op: Op) {
    op.DoRead? || op.DoWrite? || op.DoFlush? || op.DoProbe? || op.DoRelease?
  }

  /** One request: the worker stays in step or is cut off, so bytes read are always the origin's own. */
  method Perform(backend: AuthoritativeOrigin, op: Op) returns (out: Outcome)
    requires backend.Valid() && IsRequest(op)
    modifies backend, backend.origin, backend.cache, backend.cache.worker
    ensures backend.Valid() && (old(backend.InStep()) ==> backend.InStep()) && backend.cache.Monotone()
    ensures Effect(op, out.ok, old(MediaOf(backend.origin)), MediaOf(backend.origin))
    ensures op.DoRelease? ==> (out.ok <==> backend.cache.acked)
    ensures op.DoRead? && out.ok && old(backend.InStep()) ==> Answers(op, out.bytes, old(backend.origin.readable))
    ensures Ruled(backend.size, old(backend.Rank()), op, out.ok, backend.Rank())
  {
    ghost var log, rank := backend.log, backend.Rank();
    if op.DoRead? {
      var r := backend.ReadAt(op.off, op.len);
      out := if r.Ok? then Outcome(true, r.value) else Outcome(false, []);
    } else if op.DoWrite? {
      var ok, _ := backend.WriteAt(op.off, op.data, op.fua);
      out := Outcome(ok, []);
    } else if op.DoFlush? {
      var ok := backend.Flush();
      out := Outcome(ok, []);
    } else if op.DoProbe? {
      var r := backend.ProbeOrigin();
      out := Outcome(r.Ok?, []);
    } else {
      var ok := backend.ReleaseCache();
      out := Outcome(ok, []);
    }
    ServiceLawfulExtend(log, EventOf(backend.size, rank, op, out.ok));
  }

  /** Any run, under any worker and any origin: each request does what its answer says, I/O is refused from an origin
      fault until three probes have succeeded, and every read that succeeds returns what the origin held at that point.
      Unlike the in-process cache there is no exception. */
  method RunIsolated(backend: AuthoritativeOrigin, ops: seq<Op>) returns (results: seq<Outcome>, ghost run: Run)
    requires backend.Valid() && backend.InStep() && forall i :: 0 <= i < |ops| ==> IsRequest(ops[i])
    modifies backend, backend.origin, backend.cache, backend.cache.worker
    ensures backend.Valid() && backend.InStep()
    ensures RunsFrom(backend.size, run, ops, results, old(MediaOf(backend.origin)), old(backend.Rank()),
                     MediaOf(backend.origin), backend.Rank())
    ensures forall i :: 0 <= i < |ops| && ops[i].DoRead? && results[i].ok ==>
              Answers(ops[i], results[i].bytes, run.trail[i].readable)
  {
    results, run := [], Begun(MediaOf(backend.origin), backend.Rank());
    for i := 0 to |ops|
      invariant backend.Valid() && backend.InStep()
      invariant RunsFrom(backend.size, run, ops[..i], results, old(MediaOf(backend.origin)), old(backend.Rank()),
                         MediaOf(backend.origin), backend.Rank())
      invariant AllAnswered(run)
    {
      ghost var m, rank := MediaOf(backend.origin), backend.Rank();
      var out := Perform(backend, ops[i]);
      TakeOneMore(ops, i);
      RunsOn(backend.size, run, ops[..i], results, old(MediaOf(backend.origin)), old(backend.Rank()), m, rank, ops[i],
             out, MediaOf(backend.origin), backend.Rank());
      OneMoreAnswered(run, ops[i], out, MediaOf(backend.origin), backend.Rank());
      results, run := results + [out], Continued(run, ops[i], out, MediaOf(backend.origin), backend.Rank());
    }
    assert ops[..|ops|] == ops;
  }

  /** Every read that succeeded told the truth. */
  ghost predicate AllAnswered(r: Run) {
    && |r.results| == |r.ops| && |r.trail| == |r.ops| + 1
    && forall i :: 0 <= i < |r.ops| && r.ops[i].DoRead? && r.results[i].ok ==>
         Answers(r.ops[i], r.results[i].bytes, r.trail[i].readable)
  }

  lemma OneMoreAnswered(r: Run, op: Op, out: Outcome, after: Media, rank: (OriginState, nat))
    requires AllAnswered(r) && (op.DoRead? && out.ok ==> Answers(op, out.bytes, r.trail[|r.ops|].readable))
    ensures AllAnswered(Continued(r, op, out, after, rank))
  {
  }
}
