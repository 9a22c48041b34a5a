/** History-level laws of the origin cache: origin recovery and the GPU budget policy, stated over the whole
    event or sample log rather than over the counters the implementation keeps. */
module CachePolicy {
  import opened Bytes

  datatype CacheState = Off | Active | Restricted | Unavailable | Stuck

  // ---------------------------------------------------------------- origin recovery

  datatype OriginState = Ready | Degraded | Failed

  /** What one backend call did: served I/O, was refused, hit an origin fault, completed a read+sync probe, or had
      nothing to do with the origin. */
  datatype Event = Served | Refused | Faulted | Probed | Quiet

  /** Successful probes since the last origin fault; `None` if there never was one. */
  function ProbesSinceFault(log: seq<Event>): Option<nat> {
    if log == [] then None else
      var before := ProbesSinceFault(log[..|log| - 1]);
      match log[|log| - 1]
      case Faulted => Some(0)
      case Probed => if before.Some? then Some(before.value + 1) else None
      case _ => before
  }

  /** The authority state and probe counter that a history calls for. */
  function StateAfter(log: seq<Event>): (OriginState, nat) {
    match ProbesSinceFault(log)
    case None => (Ready, 0)
    case Some(n) => if n >= 3 then (Ready, 0) else if n == 0 then (Failed, 0) else (Degraded, n)
  }

  /** How one event changes the authority state and its probe counter. */
  function NextAuthority(s: (OriginState, nat), e: Event): (OriginState, nat) {
    match e
    case Faulted => (Failed, 0)
    case Probed => if s.0.Ready? || s.1 >= 2 then (Ready, 0) else (Degraded, s.1 + 1)
    case _ => s
  }

  /** I/O was only ever served in a ready state. */
  ghost predicate ServiceLawful(log: seq<Event>) {
    forall i :: 0 <= i < |log| && log[i].Served? ==> StateAfter(log[..i]).0.Ready?
  }

  lemma ServiceLawfulExtend(log: seq<Event>, e: Event)
    requires ServiceLawful(log) && (e.Served? ==> StateAfter(log).0.Ready?)
    ensures ServiceLawful(log + [e])
    ensures StateAfter(log + [e]) == NextAuthority(StateAfter(log), e)
  {
    var next := log + [e];
    assert next[..|next| - 1] == log;
    forall i | 0 <= i < |next| && next[i].Served? ensures StateAfter(next[..i]).0.Ready? {
      assert next[..i] == log[..i];
      if i == |log| {
        assert log[..i] == log;
      }
    }
  }

  /** Positions of the first three probes of an uninterrupted recovery inside `lo..hi`. */
  ghost predicate ThreeProbes(log: seq<Event>, lo: int, a: int, b: int, c: int, hi: int) {
    && -1 <= lo < a < b < c < hi <= |log|
    && log[a].Probed? && log[b].Probed? && log[c].Probed?
    && forall k :: lo < k <= c ==> !log[k].Served? && !log[k].Faulted?
  }

  /** Locates the last fault of a history, the probes after it, and that nothing was served before the third. */
  lemma {:induction false} LastFault(log: seq<Event>) returns (f: nat, p: seq<nat>)
    requires ServiceLawful(log) && ProbesSinceFault(log).Some?
    ensures f < |log| && log[f].Faulted? && forall k :: f < k < |log| ==> !log[k].Faulted?
    ensures |p| == ProbesSinceFault(log).value
    ensures forall m :: 0 <= m < |p| ==> f < p[m] < |log| && log[p[m]].Probed?
    ensures forall m, n :: 0 <= m < n < |p| ==> p[m] < p[n]
    ensures forall k :: f < k < |log| && log[k].Served? ==> |p| >= 3 && p[2] < k
  {
    var n := |log| - 1;
    var before := log[..n];
    if log[n].Faulted? {
      f, p := n, [];
    } else {
      assert ServiceLawful(before) by {
        forall i | 0 <= i < n && before[i].Served? ensures StateAfter(before[..i]).0.Ready? {
          assert before[..i] == log[..i];
        }
      }
      f, p := LastFault(before);
      if log[n].Probed? {
        p := p + [n];
      } else if log[n].Served? {
        assert StateAfter(log[..n]).0.Ready?;
      }
    }
  }

  /** After a fault no I/O is served until three read+sync probes in a row have succeeded, with nothing
      served and no further fault between the fault they follow and the third of them. */
  lemma RecoveryTakesThreeProbes(log: seq<Event>, j: nat, i: nat)
    requires ServiceLawful(log) && j < i < |log| && log[j].Faulted? && log[i].Served?
    ensures exists f, a, b, c :: j <= f < i && log[f].Faulted? && ThreeProbes(log, f, a, b, c, i)
  {
    var h := log[..i];
    forall k | 0 <= k < |h| && h[k].Served? ensures StateAfter(h[..k]).0.Ready? {
      assert h[..k] == log[..k];
    }
    assert StateAfter(log[..i]).0.Ready?;
    FaultSeen(h, j);
    var f, p := LastFault(h);
    assert ThreeProbes(log, f, p[0], p[1], p[2], i);
  }

  lemma {:induction false} FaultSeen(log: seq<Event>, j: nat)
    requires j < |log| && log[j].Faulted?
    ensures ProbesSinceFault(log).Some?
  {
    if j < |log| - 1 {
      FaultSeen(log[..|log| - 1], j);
    }
  }

  // ---------------------------------------------------------------- GPU budget policy

  /** Two seconds, in nanoseconds. */
  const GROWTH_INTERVAL: nat := 2_000_000_000
  const STUCK_AFTER: nat := 2_000_000_000
  const U8_MAX: nat := 255

  datatype GpuSample = GpuSample(budget: u64, external: u64, total: u64)

  /** The share of the card the cache leaves to everyone else. */
  function Reserve(total: nat): nat {
    Max((total + 4) / 5, 2 * GIB)
  }

  /** `physical_target_bytes`. */
  function PhysicalTarget(cap: nat, sample: Option<GpuSample>): (t: nat)
    ensures t <= cap
    ensures sample.Some? && 0 < t ==> t + sample.value.external + Reserve(sample.value.total) <= sample.value.budget
    ensures sample.None? ==> t == 0
    ensures sample.Some? && t < cap ==>
              t == SatSub(sample.value.budget, sample.value.external + Reserve(sample.value.total))
  {
    match sample
    case None => 0
    case Some(s) => Min(SatSub(SatSub(s.budget, s.external), Reserve(s.total)), cap)
  }

  /** One GPU observation: what was sampled, what was decided, what it left behind. */
  datatype GpuStep = GpuStep(now: nat, sample: Option<GpuSample>, cap: nat, before: nat, restricted: bool,
                             attempted: bool, grew: bool, cached: nat, target: nat)

  function LastAttempt(log: seq<GpuStep>): Option<nat> {
    if log == [] then None
    else if log[|log| - 1].attempted then Some(log[|log| - 1].now)
    else LastAttempt(log[..|log| - 1])
  }

  predicate OverTarget(s: GpuStep, chunk: nat) {
    SatSub(s.cached, s.target) > chunk
  }

  /** When the current uninterrupted run of over-target samples began. */
  function OverSince(log: seq<GpuStep>, chunk: nat): Option<nat> {
    if log == [] || !OverTarget(log[|log| - 1], chunk) then None
    else
      var earlier := OverSince(log[..|log| - 1], chunk);
      if earlier.Some? then earlier else Some(log[|log| - 1].now)
  }

  /** Growth is tried exactly on the third of three unrestricted samples or later, two seconds after the previous
      attempt, with room for a chunk under the target; it adds one chunk, and the budget covers it afterwards. */
  ghost predicate GrowthLawful(log: seq<GpuStep>, chunk: nat, i: nat)
    requires i < |log|
  {
    var s := log[i];
    && s.target == PhysicalTarget(s.cap, s.sample)
    && s.restricted == (s.sample.None? || s.target < s.before || s.target < chunk)
    && (s.attempted <==>
          && 2 <= i && !log[i - 2].restricted && !log[i - 1].restricted && !s.restricted && s.before + chunk <= s.target
          && (LastAttempt(log[..i]).Some? ==> LastAttempt(log[..i]).value + GROWTH_INTERVAL <= s.now))
    && (s.grew ==>
          && s.attempted && s.sample.Some? && s.cached == s.before + chunk
          && s.cached + s.sample.value.external + Reserve(s.sample.value.total) <= s.sample.value.budget)
    && (!s.grew ==> s.cached <= s.before)
    && (!s.restricted ==> s.before <= s.cached)
  }

  /** Reclaim: any three restricted samples in a row include one that leaves the cache within its target. */
  ghost predicate ReclaimLawful(log: seq<GpuStep>, i: nat)
    requires i < |log|
  {
    2 <= i && log[i - 2].restricted && log[i - 1].restricted && log[i].restricted
    ==> exists k :: i - 2 <= k <= i && log[k].cached <= log[k].target
  }

  ghost predicate PolicyLawful(log: seq<GpuStep>, chunk: nat) {
    forall i :: 0 <= i < |log| ==> GrowthLawful(log, chunk, i) && ReclaimLawful(log, i)
  }

  /** How the implementation's counters summarise the history. */
  ghost predicate CountersMatch(log: seq<GpuStep>, chunk: nat, healthy: nat, restricted: nat,
                                lastGrowth: Option<nat>, overSince: Option<nat>)
  {
    var n := |log|;
    && healthy <= n && (forall k :: n - healthy <= k < n ==> !log[k].restricted)
    && (healthy < n && healthy < U8_MAX ==> log[n - 1 - healthy].restricted)
    && restricted < 3 && restricted <= n && (forall k :: n - restricted <= k < n ==> log[k].restricted)
    && (restricted < n ==>
          !log[n - 1 - restricted].restricted || log[n - 1 - restricted].cached <= log[n - 1 - restricted].target)
    && lastGrowth == LastAttempt(log) && overSince == OverSince(log, chunk)
  }

  /** `u8::saturating_add(1)`. */
  function Inc8(n: nat): nat {
    Min(n + 1, U8_MAX)
  }

  /** The step did what the counters called for. */
  predicate StepFollows(s: GpuStep, chunk: nat, healthy: nat, restricted: nat, lastGrowth: Option<nat>,
                        restricted': nat)
  {
    && 0 < chunk
    && s.target == PhysicalTarget(s.cap, s.sample)
    && s.restricted == (s.sample.None? || s.target < s.before || s.target < chunk)
    && (s.attempted <==> !s.restricted && healthy >= 2 && s.before + chunk <= s.target &&
                         (lastGrowth.Some? ==> SatSub(s.now, lastGrowth.value) >= GROWTH_INTERVAL))
    && (s.grew ==> s.attempted && s.cached == s.before + chunk)
    && (!s.grew ==> s.cached <= s.before)
    && (!s.restricted ==> s.before <= s.cached)
    && restricted' == (if !s.restricted || restricted + 1 >= 3 then 0 else restricted + 1)
    && (s.restricted && restricted + 1 >= 3 ==> s.cached <= s.target)
  }

  /** The four counters of the implementation. */
  datatype Counters = Counters(healthy: nat, restricted: nat, lastGrowth: Option<nat>, overSince: Option<nat>)

  /** The step did what the counters called for and left them as it should. */
  predicate CountersFollow(s: GpuStep, chunk: nat, was: Counters, now: Counters) {
    && StepFollows(s, chunk, was.healthy, was.restricted, was.lastGrowth, now.restricted)
    && now.healthy == (if s.restricted then 0 else Inc8(was.healthy))
    && now.lastGrowth == (if s.attempted then Some(s.now) else was.lastGrowth)
    && now.overSince == (if !OverTarget(s, chunk) then None else if was.overSince.Some? then was.overSince
                         else Some(s.now))
  }

  /** One observation extends a lawful history, provided the step did what the counters called for. */
  lemma PolicyStep(log: seq<GpuStep>, chunk: nat, was: Counters, s: GpuStep, now: Counters)
    requires PolicyLawful(log, chunk)
    requires CountersMatch(log, chunk, was.healthy, was.restricted, was.lastGrowth, was.overSince)
    requires CountersFollow(s, chunk, was, now)
    ensures PolicyLawful(log + [s], chunk)
    ensures CountersMatch(log + [s], chunk, now.healthy, now.restricted, now.lastGrowth, now.overSince)
  {
    var next, n := log + [s], |log|;
    forall i | 0 <= i <= n ensures GrowthLawful(next, chunk, i) && ReclaimLawful(next, i) {
      if i < n {
        PolicyKept(log, chunk, s, i);
      } else {
        GrowthStep(log, chunk, was.healthy, was.restricted, was.lastGrowth, was.overSince, s, now.restricted);
        ReclaimStep(next, was.restricted);
      }
    }
    CountersStep(log, chunk, was, s, now);
  }

  lemma CountersStep(log: seq<GpuStep>, chunk: nat, was: Counters, s: GpuStep, now: Counters)
    requires CountersMatch(log, chunk, was.healthy, was.restricted, was.lastGrowth, was.overSince)
    requires CountersFollow(s, chunk, was, now)
    ensures CountersMatch(log + [s], chunk, now.healthy, now.restricted, now.lastGrowth, now.overSince)
  {
    assert (log + [s])[..|log|] == log;
  }

  lemma PolicyKept(log: seq<GpuStep>, chunk: nat, s: GpuStep, i: nat)
    requires PolicyLawful(log, chunk) && i < |log|
    ensures GrowthLawful(log + [s], chunk, i) && ReclaimLawful(log + [s], i)
  {
    assert GrowthLawful(log, chunk, i) && ReclaimLawful(log, i);
    assert (log + [s])[..i] == log[..i];
  }

  lemma GrowthStep(log: seq<GpuStep>, chunk: nat, healthy: nat, restricted: nat, lastGrowth: Option<nat>,
                   overSince: Option<nat>, s: GpuStep, restricted': nat)
    requires CountersMatch(log, chunk, healthy, restricted, lastGrowth, overSince)
    requires StepFollows(s, chunk, healthy, restricted, lastGrowth, restricted')
    ensures GrowthLawful(log + [s], chunk, |log|)
  {
    assert (log + [s])[..|log|] == log;
  }

  lemma ReclaimStep(next: seq<GpuStep>, restricted: nat)
    requires var n := |next| - 1;
             && 0 <= n && restricted < 3 && restricted <= n
             && (restricted < n ==>
                   !next[n - 1 - restricted].restricted ||
                     next[n - 1 - restricted].cached <= next[n - 1 - restricted].target)
             && (next[n].restricted && restricted + 1 >= 3 ==> next[n].cached <= next[n].target)
    ensures ReclaimLawful(next, |next| - 1)
  {
  }
}
