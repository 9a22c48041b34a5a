/** What clients see of a block device over a fallible medium, and what that promises over whole runs. */
module MediumLaw {
  import opened Bytes
  import opened Device
  import opened CachePolicy

  /** Everything a client or the policy thread can ask of a device. */
  datatype Op = DoRead(off: nat, len: nat) | DoWrite(off: nat, data: seq<byte>, fua: bool) | DoFlush | DoProbe
              | DoObserve(sample: Option<GpuSample>, now: nat) | DoRelease | DoCap(cap: nat)

  /** What the caller sees of one operation. */
  datatype Outcome = Outcome(ok: bool, bytes: seq<byte>)

  /** The origin at one moment: what a read returns and what is on disk. */
  datatype Media = Media(readable: seq<byte>, durable: seq<byte>)

  ghost function MediaOf(o: Origin): Media
    reads o
  {
    Media(o.readable, o.durable)
  }

  /** What an operation may do to the origin, given how it was answered. */
  ghost predicate Effect(op: Op, ok: bool, before: Media, after: Media) {
    match op
    case DoWrite(off, data, fua) =>
      && (exists n: nat :: Written(before.readable, before.durable, off, data, n, fua, ok, after.readable,
                                   after.durable))
      && (ok && fua ==> (after.durable == after.readable <==> data != [] || before.durable == before.readable))
    case DoFlush => Synced(ok, before, after)
    case DoProbe => Synced(ok, before, after)
    case _ => after == before
  }

  /** A sync makes everything readable durable, or, failing, leaves every byte as it was readable or as it was on
      disk. */
  ghost predicate Synced(ok: bool, before: Media, after: Media) {
    && Mixed(after.readable, before.readable, before.durable) && Mixed(after.durable, before.readable, before.durable)
    && (ok ==> after.durable == after.readable == before.readable)
  }

  /** The bytes are what a plain read of the origin would have given. */
  predicate Answers(op: Op, bytes: seq<byte>, image: seq<byte>) {
    op.DoRead? && op.off + op.len <= |image| && bytes == image[op.off..op.off + op.len]
  }

  /** A failed probe that changed what the origin returns. */
  predicate LosesBytes(op: Op, out: Outcome, before: Media, after: Media) {
    op.DoProbe? && !out.ok && after.readable != before.readable
  }

  /** What a write does to the medium: acknowledged, all of it is there; otherwise nothing or a prefix of it, after
      which a failed forced sync may have dropped any byte back to the disk's. */
  ghost predicate Written(r0: seq<byte>, d0: seq<byte>, off: nat, data: seq<byte>, n: nat, fua: bool, ok: bool,
                          r1: seq<byte>, d1: seq<byte>)
  {
    if ok then
      && off + |data| <= |r0| && r1 == Splice(r0, off, data) && Mixed(d1, r1, d0)
    else
      || (r1 == r0 && d1 == d0)
      || (&& n <= |data| && off + n <= |r0|
          && var wrote := Splice(r0, off, data[..n]);
             Mixed(d1, wrote, d0) && if fua then Mixed(r1, wrote, d0) else r1 == wrote)
  }

  /** A run: the origin's states before, between and after the operations, each step doing what its answer says. */
  ghost predicate Linked(ops: seq<Op>, results: seq<Outcome>, trail: seq<Media>) {
    && |results| == |ops| && |trail| == |ops| + 1
    && forall i :: 0 <= i < |ops| ==> Effect(ops[i], results[i].ok, trail[i], trail[i + 1])
  }

  // ---------------------------------------------------------------- service and recovery

  predicate IsIo(op: Op) {
    op.DoRead? || op.DoWrite? || op.DoFlush?
  }

  predicate Fits(size: nat, op: Op) {
    match op
    case DoRead(off, len) => off + len <= size
    case DoWrite(off, data, _) => off + |data| <= size
    case _ => true
  }

  /** I/O out of range, or while the origin is not ready. */
  predicate Refuses(size: nat, authority: (OriginState, nat), op: Op) {
    IsIo(op) && (!Fits(size, op) || !authority.0.Ready?)
  }

  /** What an operation was to the origin's authority, given how it was answered. */
  function EventOf(size: nat, authority: (OriginState, nat), op: Op, ok: bool): Event {
    if Refuses(size, authority, op) then Refused
    else if IsIo(op) then (if ok then Served else Faulted)
    else if op.DoProbe? then (if ok then Probed else Faulted)
    else Quiet
  }

  /** One operation under the authority of the origin: what must be refused is, and the authority follows. */
  predicate Ruled(size: nat, before: (OriginState, nat), op: Op, ok: bool, after: (OriginState, nat)) {
    && (Refuses(size, before, op) ==> !ok)
    && after == NextAuthority(before, EventOf(size, before, op, ok))
  }

  /** A run under that authority; `ranks` are the authority states before, between and after the operations. */
  ghost predicate Governed(size: nat, ops: seq<Op>, results: seq<Outcome>, ranks: seq<(OriginState, nat)>) {
    && |results| == |ops| && |ranks| == |ops| + 1
    && forall i :: 0 <= i < |ops| ==> Ruled(size, ranks[i], ops[i], results[i].ok, ranks[i + 1])
  }

  lemma GovernedStep(size: nat, ops: seq<Op>, results: seq<Outcome>, ranks: seq<(OriginState, nat)>, op: Op,
                     out: Outcome, rank: (OriginState, nat))
    requires Governed(size, ops, results, ranks) && Ruled(size, ranks[|ops|], op, out.ok, rank)
    ensures Governed(size, ops + [op], results + [out], ranks + [rank])
  {
  }

  /** An origin fault: a failed probe, or I/O that failed although nothing kept it from being served. */
  predicate Faults(size: nat, rank: (OriginState, nat), op: Op, ok: bool) {
    !ok && (op.DoProbe? || (IsIo(op) && !Refuses(size, rank, op)))
  }

  predicate ProbeOk(op: Op, out: Outcome) {
    op.DoProbe? && out.ok
  }

  predicate IoOk(op: Op, out: Outcome) {
    IsIo(op) && out.ok
  }

  /** The last fault before `k` and the successful probes since: fewer than three of them leave the origin unready, and
      until the third of them no I/O succeeded. */
  lemma {:induction false} SinceFault(size: nat, ops: seq<Op>, results: seq<Outcome>, ranks: seq<(OriginState, nat)>,
                                      j: nat, k: nat) returns (f: nat, p: seq<nat>)
    requires Governed(size, ops, results, ranks) && j < k <= |ops| && Faults(size, ranks[j], ops[j], results[j].ok)
    ensures j <= f < k && forall i :: f < i < k ==> !Faults(size, ranks[i], ops[i], results[i].ok)
    ensures forall m :: 0 <= m < |p| ==> f < p[m] < k && ProbeOk(ops[p[m]], results[p[m]])
    ensures forall m, n :: 0 <= m < n < |p| ==> p[m] < p[n]
    ensures forall i :: f < i < k && IoOk(ops[i], results[i]) ==> 3 <= |p| && p[2] < i
    ensures if 3 <= |p| then ranks[k].0.Ready? else !ranks[k].0.Ready? && ranks[k].1 == |p|
  {
    var n := k - 1;
    assert Ruled(size, ranks[n], ops[n], results[n].ok, ranks[n + 1]);
    if Faults(size, ranks[n], ops[n], results[n].ok) {
      f, p := n, [];
    } else {
      f, p := SinceFault(size, ops, results, ranks, j, n);
      if ProbeOk(ops[n], results[n]) {
        p := p + [n];
      }
    }
  }

  /** The operations `a`, `b` and `c`, in this order between `f` and `i`, are probes that succeeded, and from `f` to
      `c` no I/O succeeded. */
  ghost predicate RecoveredBy(ops: seq<Op>, results: seq<Outcome>, f: int, a: int, b: int, c: int, i: int)
    requires |results| == |ops|
  {
    && 0 <= f < a < b < c < i <= |ops|
    && ProbeOk(ops[a], results[a]) && ProbeOk(ops[b], results[b]) && ProbeOk(ops[c], results[c])
    && forall k :: f < k <= c ==> !IoOk(ops[k], results[k])
  }

  /** Recovery over operations and results: after an origin fault I/O succeeds again only after three successful probes,
      with no successful I/O among them and no further fault since the one they follow. */
  lemma RecoveryOverRun(size: nat, ops: seq<Op>, results: seq<Outcome>, ranks: seq<(OriginState, nat)>, j: nat, i: nat)
    returns (f: nat, a: nat, b: nat, c: nat)
    requires Governed(size, ops, results, ranks) && j < i < |ops|
    requires Faults(size, ranks[j], ops[j], results[j].ok) && IoOk(ops[i], results[i])
    ensures j <= f && RecoveredBy(ops, results, f, a, b, c, i)
    ensures forall k :: f < k < i ==> !Faults(size, ranks[k], ops[k], results[k].ok)
  {
    var p;
    f, p := SinceFault(size, ops, results, ranks, j, i);
    assert Ruled(size, ranks[i], ops[i], results[i].ok, ranks[i + 1]);
    a, b, c := p[0], p[1], p[2];
    assert ProbeOk(ops[a], results[a]) && ProbeOk(ops[b], results[b]) && ProbeOk(ops[c], results[c]);
  }

  // ---------------------------------------------------------------- runs

  /** A run: its operations and answers, the origin and its authority state before, between and after them, and how
      many operations came before the first failed probe that lost bytes. */
  datatype Run = Run(ops: seq<Op>, results: seq<Outcome>, trail: seq<Media>, ranks: seq<(OriginState, nat)>, kept: nat)

  /** Every step does what its answer says, service follows the origin's authority, and reads tell the truth until
      bytes are lost. */
  ghost predicate LawfulRun(size: nat, r: Run) {
    && Linked(r.ops, r.results, r.trail) && Governed(size, r.ops, r.results, r.ranks)
    && Truthful(r.ops, r.results, r.trail, r.kept)
  }

  ghost predicate Truthful(ops: seq<Op>, results: seq<Outcome>, trail: seq<Media>, kept: nat)
    requires Linked(ops, results, trail)
  {
    && kept <= |ops|
    && (forall i :: 0 <= i < kept && ops[i].DoRead? && results[i].ok ==>
          Answers(ops[i], results[i].bytes, trail[i].readable))
    && (kept < |ops| ==> LosesBytes(ops[kept], results[kept], trail[kept], trail[kept + 1]))
  }

  function Begun(m: Media, rank: (OriginState, nat)): Run {
    Run([], [], [m], [rank], 0)
  }

  /** The run with one more operation. */
  function Continued(r: Run, op: Op, out: Outcome, after: Media, rank: (OriginState, nat)): Run
    requires r.trail != []
  {
    var kept := r.kept == |r.ops| && !LosesBytes(op, out, r.trail[|r.trail| - 1], after);
    Run(r.ops + [op], r.results + [out], r.trail + [after], r.ranks + [rank], if kept then r.kept + 1 else r.kept)
  }

  lemma RunStep(size: nat, r: Run, op: Op, out: Outcome, after: Media, rank: (OriginState, nat))
    requires LawfulRun(size, r) && Effect(op, out.ok, r.trail[|r.ops|], after)
    requires Ruled(size, r.ranks[|r.ops|], op, out.ok, rank)
    requires r.kept == |r.ops| && op.DoRead? && out.ok ==> Answers(op, out.bytes, r.trail[|r.ops|].readable)
    ensures LawfulRun(size, Continued(r, op, out, after, rank))
  {
    LinkedStep(r.ops, r.results, r.trail, op, out, after);
    GovernedStep(size, r.ops, r.results, r.ranks, op, out, rank);
    TruthfulStep(r, op, out, after, rank);
  }

  /** A lawful run of exactly these operations and answers, from one state of medium and authority to another. */
  ghost predicate RunsFrom(size: nat, r: Run, ops: seq<Op>, results: seq<Outcome>, m: Media, rank: (OriginState, nat),
                           m': Media, rank': (OriginState, nat))
  {
    && LawfulRun(size, r) && r.ops == ops && r.results == results
    && r.trail[0] == m && r.trail[|ops|] == m' && r.ranks[0] == rank && r.ranks[|ops|] == rank'
  }

  lemma RunsOn(size: nat, r: Run, ops: seq<Op>, results: seq<Outcome>, m0: Media, rank0: (OriginState, nat), m: Media,
               rank: (OriginState, nat), op: Op, out: Outcome, m': Media, rank': (OriginState, nat))
    requires RunsFrom(size, r, ops, results, m0, rank0, m, rank)
    requires Effect(op, out.ok, m, m') && Ruled(size, rank, op, out.ok, rank')
    requires r.kept == |ops| && op.DoRead? && out.ok ==> Answers(op, out.bytes, m.readable)
    ensures RunsFrom(size, Continued(r, op, out, m', rank'), ops + [op], results + [out], m0, rank0, m', rank')
    ensures Continued(r, op, out, m', rank').kept == |ops| + 1 <==> r.kept == |ops| && !LosesBytes(op, out, m, m')
  {
    RunStep(size, r, op, out, m', rank');
  }

  lemma TruthfulStep(r: Run, op: Op, out: Outcome, after: Media, rank: (OriginState, nat))
    requires Linked(r.ops, r.results, r.trail) && Truthful(r.ops, r.results, r.trail, r.kept)
    requires Linked(r.ops + [op], r.results + [out], r.trail + [after])
    requires r.kept == |r.ops| && op.DoRead? && out.ok ==> Answers(op, out.bytes, r.trail[|r.ops|].readable)
    ensures Truthful(r.ops + [op], r.results + [out], r.trail + [after], Continued(r, op, out, after, rank).kept)
  {
  }

  lemma LinkedStep(ops: seq<Op>, results: seq<Outcome>, trail: seq<Media>, op: Op, out: Outcome, after: Media)
    requires Linked(ops, results, trail) && Effect(op, out.ok, trail[|ops|], after)
    ensures Linked(ops + [op], results + [out], trail + [after])
  {
  }

  /** The operation could not have changed byte `p` of what is readable: it is no write to it, and no sync failed. */
  predicate Spares(op: Op, ok: bool, p: nat) {
    match op
    case DoWrite(off, data, fua) => !(off <= p < off + |data|) && (ok || !fua)
    case DoFlush => ok
    case DoProbe => ok
    case _ => true
  }

  lemma SparedByte(op: Op, ok: bool, before: Media, after: Media, p: nat)
    requires Effect(op, ok, before, after) && Spares(op, ok, p) && p < |before.readable|
    ensures p < |after.readable| && after.readable[p] == before.readable[p]
  {
  }

  /** Bytes stay readable: in any run, a byte holds its value until a write to it or a failed sync. */
  lemma {:induction false} ByteStays(ops: seq<Op>, results: seq<Outcome>, trail: seq<Media>, a: nat, b: nat, p: nat)
    requires Linked(ops, results, trail) && a <= b <= |ops| && p < |trail[a].readable|
    requires forall i :: a <= i < b ==> Spares(ops[i], results[i].ok, p)
    ensures p < |trail[b].readable| && trail[b].readable[p] == trail[a].readable[p]
  {
    if a < b {
      ByteStays(ops, results, trail, a, b - 1, p);
      SparedByte(ops[b - 1], results[b - 1].ok, trail[b - 1], trail[b], p);
    }
  }

  /** Read your writes: after an acknowledged write, every read that the run answers up to the next write of that byte
      or the next failed sync returns the byte written. */
  lemma ReadYourWrites(ops: seq<Op>, results: seq<Outcome>, trail: seq<Media>, w: nat, r: nat, p: nat)
    requires Linked(ops, results, trail) && w < r < |ops|
    requires ops[w].DoWrite? && results[w].ok && ops[w].off <= p < ops[w].off + |ops[w].data|
    requires forall i :: w < i < r ==> Spares(ops[i], results[i].ok, p)
    requires ops[r].DoRead? && Answers(ops[r], results[r].bytes, trail[r].readable)
    requires ops[r].off <= p < ops[r].off + ops[r].len
    ensures results[r].bytes[p - ops[r].off] == ops[w].data[p - ops[w].off]
  {
    assert Effect(ops[w], results[w].ok, trail[w], trail[w + 1]);
    ByteStays(ops, results, trail, w + 1, r, p);
  }

  /** A disk that simply does as it is told. */
  function Ideal(image: seq<byte>, ops: seq<Op>): (r: seq<byte>)
    ensures |r| == |image|
  {
    if ops == [] then image
    else
      var before, op := Ideal(image, ops[..|ops| - 1]), ops[|ops| - 1];
      if op.DoWrite? && op.off + |op.data| <= |image| then Splice(before, op.off, op.data) else before
  }

  /** As long as every write, flush and probe is acknowledged, the device is that disk. */
  lemma {:induction false} IdealRun(ops: seq<Op>, results: seq<Outcome>, trail: seq<Media>, k: nat)
    requires Linked(ops, results, trail) && k <= |ops|
    requires forall i :: 0 <= i < k && (ops[i].DoWrite? || ops[i].DoFlush? || ops[i].DoProbe?) ==> results[i].ok
    ensures trail[k].readable == Ideal(trail[0].readable, ops[..k])
  {
    if k > 0 {
      IdealRun(ops, results, trail, k - 1);
      assert ops[..k][..k - 1] == ops[..k - 1];
      assert Effect(ops[k - 1], results[k - 1].ok, trail[k - 1], trail[k]);
    }
  }

  /** A byte that is the same in what is readable and on disk. */
  predicate Settled(m: Media, p: nat, v: byte) {
    p < |m.readable| == |m.durable| && m.readable[p] == m.durable[p] == v
  }

  lemma SettledByte(op: Op, ok: bool, before: Media, after: Media, p: nat, v: byte)
    requires Effect(op, ok, before, after) && Settled(before, p, v)
    requires op.DoWrite? ==> !(op.off <= p < op.off + |op.data|)
    ensures Settled(after, p, v)
  {
  }

  /** Flushed bytes survive: once a flush, a probe or a forced write was acknowledged, each byte stays readable and on
      disk until it is written again, whatever syncs and probes fail in between. */
  lemma {:induction false} FlushedSurvives(ops: seq<Op>, results: seq<Outcome>, trail: seq<Media>, a: nat, b: nat,
                                           p: nat)
    requires Linked(ops, results, trail) && a < b <= |ops| && results[a].ok && p < |trail[a + 1].readable|
    requires ops[a].DoFlush? || ops[a].DoProbe? || (ops[a].DoWrite? && ops[a].fua && ops[a].data != [])
    requires forall i :: a < i < b && ops[i].DoWrite? ==> !(ops[i].off <= p < ops[i].off + |ops[i].data|)
    ensures Settled(trail[b], p, trail[a + 1].readable[p])
  {
    assert Effect(ops[a], results[a].ok, trail[a], trail[a + 1]);
    if a + 1 < b {
      FlushedSurvives(ops, results, trail, a, b - 1, p);
      SettledByte(ops[b - 1], results[b - 1].ok, trail[b - 1], trail[b], p, trail[a + 1].readable[p]);
    }
  }
}
