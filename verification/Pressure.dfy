/** The pressure state machine, specified over the whole sample history.

    `StateOf` looks at raw samples only; the supervisor's incremental counters are proved to compute it, and
    worse samples are proved never to give a milder state. */
module Pressure {
  import opened Bytes

  const RECOVERY_SAMPLES: nat := 60

  datatype State = Healthy | Guarded | Critical | Emergency

  function Severity(s: State): nat {
    match s
    case Healthy => 0
    case Guarded => 1
    case Critical => 2
    case Emergency => 3
  }

  datatype Sample = Sample(available: u64, reserve: u64, psi: real, delayMs: nat, elapsedMs: u64)

  /** The last `k` samples all have PSI at or above `threshold`. */
  ghost predicate PsiHeld(h: seq<Sample>, k: nat, threshold: real) {
    k <= |h| && forall i :: |h| - k <= i < |h| ==> h[i].psi >= threshold
  }

  /** What the latest sample calls for, given the PSI of the few before it. */
  ghost function Requested(h: seq<Sample>): State
    requires h != []
  {
    var s := h[|h| - 1];
    if s.available < s.reserve / 2 || PsiHeld(h, 5, 10.0) || s.delayMs >= 3000 then Emergency
    else if s.available < SatMul(s.reserve, 3) / 4 || PsiHeld(h, 5, 5.0) then Critical
    else if s.available < s.reserve || PsiHeld(h, 3, 2.0) then Guarded
    else Healthy
  }

  predicate FullyHealthy(s: Sample) {
    s.available >= SatAdd(s.reserve, GIB) && s.psi < 1.0 && s.delayMs < 3000
  }

  /** Every sample since `from` called for no action. */
  ghost predicate QuietSince(h: seq<Sample>, from: nat) {
    forall m :: from < m <= |h| ==> Requested(h[..m]).Healthy?
  }

  /** Sixty fully healthy samples in a row, and no trouble since. */
  ghost predicate Recovered(h: seq<Sample>, k: nat) {
    && k + RECOVERY_SAMPLES <= |h|
    && (forall i :: k <= i < k + RECOVERY_SAMPLES ==> FullyHealthy(h[i]))
    && QuietSince(h, k)
  }

  /** The state a history calls for: what was last requested, except that once trouble has been seen a quiet
      history stays guarded until sixty fully healthy samples in a row. */
  ghost function StateOf(h: seq<Sample>): State {
    if h == [] then Healthy
    else if !Requested(h).Healthy? then Requested(h)
    else if QuietSince(h, 0) || exists k: nat :: Recovered(h, k) then Healthy
    else Guarded
  }

  // ---------------------------------------------------------------- monotonicity

  /** `b` is at least as bad a sample as `a`, under the same reserve. */
  predicate Worse(a: Sample, b: Sample) {
    a.reserve == b.reserve && b.available <= a.available && a.psi <= b.psi && a.delayMs <= b.delayMs
  }

  ghost predicate AllWorse(a: seq<Sample>, b: seq<Sample>) {
    |a| == |b| && forall i :: 0 <= i < |a| ==> Worse(a[i], b[i])
  }

  lemma RequestedMonotone(a: seq<Sample>, b: seq<Sample>)
    requires a != [] && AllWorse(a, b)
    ensures Severity(Requested(a)) <= Severity(Requested(b))
  {
    assert Worse(a[|a| - 1], b[|b| - 1]);
    assert PsiHeld(a, 5, 10.0) ==> PsiHeld(b, 5, 10.0);
    assert PsiHeld(a, 5, 5.0) ==> PsiHeld(b, 5, 5.0);
    assert PsiHeld(a, 3, 2.0) ==> PsiHeld(b, 3, 2.0);
  }

  lemma QuietMonotone(a: seq<Sample>, b: seq<Sample>, from: nat)
    requires AllWorse(a, b) && QuietSince(b, from)
    ensures QuietSince(a, from)
  {
    forall m | from < m <= |a| ensures Requested(a[..m]).Healthy? {
      RequestedMonotone(a[..m], b[..m]);
    }
  }

  /** Pointwise worse samples never give a less severe state. */
  lemma WorseNeverMilder(a: seq<Sample>, b: seq<Sample>)
    requires AllWorse(a, b)
    ensures Severity(StateOf(a)) <= Severity(StateOf(b))
  {
    if a != [] {
      RequestedMonotone(a, b);
      if StateOf(b).Healthy? {
        if QuietSince(b, 0) {
          QuietMonotone(a, b, 0);
        } else {
          var k: nat :| Recovered(b, k);
          QuietMonotone(a, b, k);
          assert forall i :: k <= i < k + RECOVERY_SAMPLES ==> Worse(a[i], b[i]);
          assert Recovered(a, k);
        }
      }
    }
  }

  // ---------------------------------------------------------------- incremental counters

  /** How many samples at the end of the history satisfy a test. */
  ghost function Run(h: seq<Sample>, test: Sample -> bool): nat {
    if h == [] || !test(h[|h| - 1]) then 0 else Run(h[..|h| - 1], test) + 1
  }

  lemma {:induction false} RunMeans(h: seq<Sample>, test: Sample -> bool, k: nat)
    ensures Run(h, test) >= k <==> k <= |h| && forall i :: |h| - k <= i < |h| ==> test(h[i])
  {
    if h != [] && 0 < k {
      var p := h[..|h| - 1];
      RunMeans(p, test, k - 1);
      if k <= |h| && forall i :: |h| - k <= i < |h| ==> test(h[i]) {
        assert test(h[|h| - 1]);
        assert forall i :: |p| - (k - 1) <= i < |p| ==> test(h[i]);
      }
      if Run(h, test) >= k {
        assert forall i :: |p| - (k - 1) <= i < |p| ==> test(p[i]);
      }
    }
  }

  function PsiAtLeast(threshold: real): Sample -> bool {
    (s: Sample) => s.psi >= threshold
  }

  function Health(): Sample -> bool {
    (s: Sample) => FullyHealthy(s)
  }

  /** A capped counter of a run. */
  ghost predicate Counts(counter: nat, h: seq<Sample>, test: Sample -> bool) {
    counter == Min(Run(h, test), U32_MAX)
  }

  /** `streak`: saturating `u32` increment, or reset. */
  function Streak(current: nat, condition: bool): nat {
    if condition then Min(current + 1, U32_MAX) else 0
  }

  lemma CountsStep(counter: nat, h: seq<Sample>, s: Sample, test: Sample -> bool)
    requires Counts(counter, h, test)
    ensures Counts(Streak(counter, test(s)), h + [s], test)
  {
    assert (h + [s])[..|h|] == h;
  }

  /** A capped psi counter answers exactly the windowed question. */
  lemma PsiWindow(counter: nat, h: seq<Sample>, threshold: real, k: nat)
    requires Counts(counter, h, PsiAtLeast(threshold)) && k <= 5
    ensures counter >= k <==> PsiHeld(h, k, threshold)
  {
    RunMeans(h, PsiAtLeast(threshold), k);
  }

  /** A fully healthy sample calls for nothing. */
  lemma HealthyIsQuiet(h: seq<Sample>)
    requires h != [] && FullyHealthy(h[|h| - 1])
    ensures Requested(h).Healthy?
  {
    var s := h[|h| - 1];
    assert !PsiHeld(h, 5, 10.0) && !PsiHeld(h, 5, 5.0) && !PsiHeld(h, 3, 2.0);
    assert s.reserve <= s.available && SatMul(s.reserve, 3) / 4 <= s.reserve;
  }

  /** How the state evolves by one sample: the incremental rule of `observe`. */
  lemma StateStep(h: seq<Sample>, s: Sample, healthy: nat)
    requires Counts(healthy, h + [s], Health())
    ensures StateOf(h + [s]) ==
            if !Requested(h + [s]).Healthy? then Requested(h + [s])
            else if StateOf(h).Healthy? || healthy >= RECOVERY_SAMPLES then Healthy
            else Guarded
  {
    var n := h + [s];
    assert n[..|n|] == n;
    if Requested(n).Healthy? {
      RunMeans(n, Health(), RECOVERY_SAMPLES);
      if healthy >= RECOVERY_SAMPLES {
        FreshRecovery(n);
      } else if StateOf(h).Healthy? {
        if h == [] || QuietSince(h, 0) {
          QuietExtend(h, s, 0);
        } else {
          var k: nat :| Recovered(h, k);
          QuietExtend(h, s, k);
          assert Recovered(n, k);
        }
      } else {
        if QuietSince(n, 0) {
          QuietPrefix(h, s, 0);
          assert false;
        }
        if k: nat :| Recovered(n, k) {
          if k + RECOVERY_SAMPLES < |n| {
            QuietPrefix(h, s, k);
            assert forall i :: k <= i < k + RECOVERY_SAMPLES ==> FullyHealthy(n[i]) && n[i] == h[i];
            assert Recovered(h, k);
          }
          assert false;
        }
      }
    }
  }

  lemma FreshRecovery(n: seq<Sample>)
    requires RECOVERY_SAMPLES <= |n| && forall i :: |n| - RECOVERY_SAMPLES <= i < |n| ==> Health()(n[i])
    ensures Recovered(n, |n| - RECOVERY_SAMPLES)
  {
    var k := |n| - RECOVERY_SAMPLES;
    assert forall i :: k <= i < |n| ==> FullyHealthy(n[i]) by {
      forall i | k <= i < |n| ensures FullyHealthy(n[i]) {
        assert Health()(n[i]);
      }
    }
    forall m | k < m <= |n| ensures Requested(n[..m]).Healthy? {
      assert FullyHealthy(n[m - 1]);
      HealthyIsQuiet(n[..m]);
    }
  }

  lemma QuietExtend(h: seq<Sample>, s: Sample, from: nat)
    requires QuietSince(h, from) && Requested(h + [s]).Healthy?
    ensures QuietSince(h + [s], from)
  {
    var n := h + [s];
    forall m | from < m <= |n| ensures Requested(n[..m]).Healthy? {
      if m <= |h| {
        assert n[..m] == h[..m];
      } else {
        assert n[..m] == n;
      }
    }
  }

  lemma QuietPrefix(h: seq<Sample>, s: Sample, from: nat)
    requires QuietSince(h + [s], from)
    ensures QuietSince(h, from)
    ensures from < |h| ==> Requested(h).Healthy?
  {
    var n := h + [s];
    forall m | from < m <= |h| ensures Requested(h[..m]).Healthy? {
      assert n[..m] == h[..m];
    }
    assert h[..|h|] == h;
  }
}
