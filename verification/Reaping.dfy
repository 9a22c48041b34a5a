/** Running a child process in its own group: every behaviour of the child, its pipes and the kernel is an arbitrary
    script, and every call made is logged.  Containment ends the program, so nothing is logged after it. */
module Reaping {
  import opened Bytes

  datatype SignalReply = Sent | NoSuchProcess | SignalFailed

  datatype Poll = Exited | Running | PollFailed

  datatype Status = Code(code: int) | BySignal

  datatype ReapReply = Done(status: Status) | NotYet | ReapFailed

  datatype Stream = Stdout | Stderr

  datatype Capture = Output(bytes: seq<byte>) | CaptureFailed | Blocked

  /** What the environment answers to the next call, whichever it is. */
  datatype Reply = Reply(signal: SignalReply, poll: Poll, reap: ReapReply, capture: Capture, joins: bool)

  datatype Event =
    | GroupKill(signal: SignalReply)
    | DirectKill
    | Observed(poll: Poll)
    | Received(stream: Stream, capture: Capture)
    | Joined(stream: Stream, joins: bool)
    | Reap(reap: ReapReply)
    | Contained

  datatype Error = Fatal | Timeout | NonZeroExit(code: int) | KilledBySignal | CaptureError | PipeUnavailable
                 | WorkerUnavailable

  // ---------------------------------------------------------------- the law of a run

  /** What has happened so far.  `failures` counts the group signals that failed; `stdout` and `stderr` hold output that
      arrived before any group signal was sent. */
  datatype Progress = Progress(exited: bool, signalled: bool, residual: bool, reaped: bool, halted: bool, clean: bool,
                               failures: nat, stdout: Option<seq<byte>>, stderr: Option<seq<byte>>)

  function Next(p: Progress, e: Event): Progress {
    match e
    case GroupKill(s) => p.(signalled := true, residual := p.residual || p.exited, clean := p.clean && !s.SignalFailed?,
                              failures := if s.SignalFailed? then p.failures + 1 else p.failures)
    case Observed(r) => p.(exited := p.exited || r.Exited?)
    case Received(Stdout, Output(b)) => if p.signalled then p else p.(stdout := Some(b))
    case Received(Stderr, Output(b)) => if p.signalled then p else p.(stderr := Some(b))
    case Reap(r) => p.(reaped := p.reaped || r.Done?)
    case Contained => p.(halted := true)
    case _ => p
  }

  const START := Progress(false, false, false, false, false, true, 0, None, None)

  function After(log: seq<Event>): Progress {
    if log == [] then START else Next(After(log[..|log| - 1]), log[|log| - 1])
  }

  /** Nothing follows containment; nothing but containment follows the reap; the reap waits for an observed exit and
      for a group signal sent after it. */
  predicate Allowed(p: Progress, e: Event) {
    !p.halted && (e.Contained? || !p.reaped) && (e.Reap? ==> p.residual)
  }

  predicate Lawful(log: seq<Event>) {
    log == [] || (Lawful(log[..|log| - 1]) && Allowed(After(log[..|log| - 1]), log[|log| - 1]))
  }

  /** Every event of a lawful run was allowed where it stands. */
  lemma {:induction false} AllowedAt(log: seq<Event>, n: nat)
    requires Lawful(log) && n < |log|
    ensures Allowed(After(log[..n]), log[n])
  {
    if n < |log| - 1 {
      AllowedAt(log[..|log| - 1], n);
      assert log[..|log| - 1][..n] == log[..n];
    }
  }

  /** A run as it grows: the same law, event by event. */
  datatype Trace = Begin | Then(before: Trace, last: Event)

  function Sum(t: Trace): Progress {
    match t
    case Begin => START
    case Then(before, e) => Next(Sum(before), e)
  }

  predicate Kept(t: Trace) {
    t.Then? ==> Kept(t.before) && Allowed(Sum(t.before), t.last)
  }

  function Events(t: Trace): seq<Event> {
    match t
    case Begin => []
    case Then(before, e) => Events(before) + [e]
  }

  lemma {:induction false} TraceIsLog(t: Trace)
    ensures After(Events(t)) == Sum(t) && (Lawful(Events(t)) <==> Kept(t))
  {
    if t.Then? {
      TraceIsLog(t.before);
      assert Events(t)[..|Events(t)| - 1] == Events(t.before);
    }
  }

  // ---------------------------------------------------------------- what the law means for the order of events

  lemma Step(log: seq<Event>, i: nat)
    requires i < |log|
    ensures After(log[..i + 1]) == Next(After(log[..i]), log[i])
  {
    assert log[..i + 1][..i] == log[..i];
  }

  /** Facts once true stay true. */
  predicate Grows(p: Progress, q: Progress) {
    (p.reaped ==> q.reaped) && (p.halted ==> q.halted) && (p.signalled ==> q.signalled) && (q.clean ==> p.clean)
  }

  lemma NextGrows(p: Progress, e: Event)
    ensures Grows(p, Next(p, e))
  {
  }

  lemma StepGrows(log: seq<Event>, i: nat)
    requires i < |log|
    ensures Grows(After(log[..i]), After(log[..i + 1]))
  {
    Step(log, i);
    NextGrows(After(log[..i]), log[i]);
  }

  lemma {:induction false} Monotone(log: seq<Event>, i: nat, j: nat)
    requires i <= j <= |log|
    ensures Grows(After(log[..i]), After(log[..j]))
    decreases j
  {
    if i < j {
      Monotone(log, i, j - 1);
      StepGrows(log, j - 1);
      GrowsThrough(After(log[..i]), After(log[..j - 1]), After(log[..j]));
    }
  }

  lemma GrowsThrough(p: Progress, q: Progress, r: Progress)
    requires Grows(p, q) && Grows(q, r)
    ensures Grows(p, r)
  {
  }

  /** No group signal, direct signal or second reap once the child is reaped; nothing at all after containment. */
  lemma NothingAfterReap(log: seq<Event>)
    requires Lawful(log)
    ensures forall i, j :: 0 <= i < j < |log| && log[i].Reap? && log[i].reap.Done? ==> log[j].Contained?
    ensures forall i :: 0 <= i < |log| - 1 ==> !log[i].Contained?
  {
    forall i, j | 0 <= i < j < |log| && log[i].Reap? && log[i].reap.Done? ensures log[j].Contained? {
      Step(log, i);
      Monotone(log, i + 1, j);
      AllowedAt(log, j);
    }
    forall i | 0 <= i < |log| - 1 ensures !log[i].Contained? {
      Step(log, i);
      AllowedAt(log, i + 1);
    }
  }

  /** Progress facts have the events behind them. */
  lemma {:induction false} Witnessed(log: seq<Event>)
    ensures After(log).exited ==> exists i :: 0 <= i < |log| && log[i] == Observed(Exited)
    ensures After(log).residual ==> exists i, k :: 0 <= i < k < |log| && log[i] == Observed(Exited) && log[k].GroupKill?
    ensures After(log).reaped ==> exists i :: 0 <= i < |log| && log[i].Reap? && log[i].reap.Done?
  {
    if log != [] {
      var n := |log| - 1;
      var before := log[..n];
      Witnessed(before);
      if After(before).exited {
        var i :| 0 <= i < n && before[i] == Observed(Exited);
        assert log[i] == Observed(Exited) && (log[n].GroupKill? ==> 0 <= i < n < |log|);
      }
      if After(before).residual {
        var i, k :| 0 <= i < k < n && before[i] == Observed(Exited) && before[k].GroupKill?;
        assert log[i] == Observed(Exited) && log[k].GroupKill?;
      }
      if After(before).reaped {
        var i :| 0 <= i < n && before[i].Reap? && before[i].reap.Done?;
        assert log[i].Reap? && log[i].reap.Done?;
      }
      assert log[n] == Observed(Exited) || After(log).exited == After(before).exited;
    }
  }

  /** Every reap attempt comes after an observed exit and after a group signal sent since then. */
  lemma ResidualKillBeforeReap(log: seq<Event>, j: nat)
    requires Lawful(log) && j < |log| && log[j].Reap?
    ensures exists i, k :: 0 <= i < k < j && log[i] == Observed(Exited) && log[k].GroupKill?
  {
    AllowedAt(log, j);
    Witnessed(log[..j]);
    var i, k :| 0 <= i < k < j && log[..j][i] == Observed(Exited) && log[..j][k].GroupKill?;
    assert log[i] == Observed(Exited) && log[k].GroupKill?;
  }

  /** Every group signal of a clean run succeeded or found no process. */
  lemma CleanMeans(log: seq<Event>)
    requires After(log).clean
    ensures forall i :: 0 <= i < |log| && log[i].GroupKill? ==> !log[i].signal.SignalFailed?
  {
    forall i | 0 <= i < |log| && log[i].GroupKill? ensures !log[i].signal.SignalFailed? {
      Step(log, i);
      Monotone(log, i + 1, |log|);
      assert log[..|log|] == log;
    }
  }

  /** The stream's output that the progress records. */
  function Early(p: Progress, s: Stream): Option<seq<byte>> {
    if s.Stdout? then p.stdout else p.stderr
  }

  /** Recorded output was received before the first group signal: the pipe closed by itself. */
  lemma {:induction false} EarlyOutput(log: seq<Event>, s: Stream, b: seq<byte>)
    requires Early(After(log), s) == Some(b)
    ensures exists i ::
              && 0 <= i < |log| && log[i] == Received(s, Output(b))
              && forall k :: 0 <= k <= i ==> !log[k].GroupKill?
  {
    var n := |log| - 1;
    var before := log[..n];
    if Early(After(before), s) == Some(b) {
      EarlyOutput(before, s, b);
      var i :| 0 <= i < n && before[i] == Received(s, Output(b)) && forall k :: 0 <= k <= i ==> !before[k].GroupKill?;
      assert log[i] == before[i] && forall k :: 0 <= k <= i ==> log[k] == before[k];
    } else {
      assert log[n] == Received(s, Output(b)) && !After(before).signalled;
      forall k | 0 <= k < n ensures !log[k].GroupKill? {
        Step(log, k);
        Monotone(log, k + 1, n);
      }
    }
  }

  /** `n` events in a row from `start`, all `e`. */
  ghost predicate Repeated(log: seq<Event>, start: nat, n: nat, e: Event) {
    start + n <= |log| && forall i :: start <= i < start + n ==> log[i] == e
  }

  /** No group signal from position `m` on failed. */
  ghost predicate SignalsWell(log: seq<Event>, m: int)
    requires 0 <= m
  {
    forall i :: m <= i < |log| && log[i].GroupKill? ==> !log[i].signal.SignalFailed?
  }

  /** A group signal failed, and then the lone capture worker could not be joined. */
  ghost predicate FailedThenUnjoined(log: seq<Event>, m: int) {
    && 0 < m <= |log| && log[m - 1] == Joined(Stdout, false)
    && exists i :: 0 <= i < m && log[i] == GroupKill(SignalFailed)
  }

  /** From position `m` on the child was terminated without a fault: no group signal failed and the child was reaped. */
  ghost predicate TerminatedWell(log: seq<Event>, m: int) {
    0 <= m < |log| && SignalsWell(log, m) && log[|log| - 1].Reap? && log[|log| - 1].reap.Done?
  }

  lemma {:induction false} NoNewFailures(log: seq<Event>, m: nat)
    requires m <= |log|
    ensures After(log[..m]).failures <= After(log).failures
    ensures After(log[..m]).failures == After(log).failures ==> SignalsWell(log, m)
  {
    var n := |log| - 1;
    if m <= n {
      NoNewFailures(log[..n], m);
      assert log[..n][..m] == log[..m];
      assert After(log) == Next(After(log[..n]), log[n]);
      if After(log[..m]).failures == After(log).failures {
        forall i | m <= i <= n && log[i].GroupKill? ensures !log[i].signal.SignalFailed? {
          assert i < n ==> log[..n][i] == log[i];
        }
      }
    } else {
      assert log[..m] == log;
    }
  }

  /** Such a run never contained the failed signal. */
  lemma UncontainedTrace(log: seq<Event>, m: int)
    requires Lawful(log) && FailedThenUnjoined(log, m) && TerminatedWell(log, m)
    ensures !After(log).halted && !After(log).clean
  {
    var i :| 0 <= i < m && log[i] == GroupKill(SignalFailed);
    AllowedAt(log, |log| - 1);
    Step(log, |log| - 1);
    Step(log, i);
    Monotone(log, i + 1, |log|);
    assert log[..|log|] == log;
  }

  /** And this is how it comes about: unclean up to the failed join, and no new failure since. */
  lemma UncontainedMark(mark: seq<Event>, log: seq<Event>)
    requires mark != [] && mark < log && mark[|mark| - 1] == Joined(Stdout, false) && !After(mark).clean
    requires After(log).failures == After(mark).failures && log[|log| - 1].Reap? && log[|log| - 1].reap.Done?
    ensures FailedThenUnjoined(log, |mark|) && TerminatedWell(log, |mark|)
  {
    UncleanTrace(mark);
    var i :| 0 <= i < |mark| && mark[i] == GroupKill(SignalFailed);
    assert log[i] == mark[i] && log[..|mark|] == mark;
    NoNewFailures(log, |mark|);
  }

  /** An unclean run has a failed group signal. */
  lemma {:induction false} UncleanTrace(log: seq<Event>)
    requires !After(log).clean
    ensures exists i :: 0 <= i < |log| && log[i] == GroupKill(SignalFailed)
  {
    var n := |log| - 1;
    if !After(log[..n]).clean {
      UncleanTrace(log[..n]);
      var i :| 0 <= i < n && log[..n][i] == GroupKill(SignalFailed);
      assert log[i] == GroupKill(SignalFailed);
    } else {
      assert log[n] == GroupKill(SignalFailed);
    }
  }

  /** Accounting for one worker: receive; if blocked, signal the group and receive again; join what was received. */
  ghost predicate SingleCaptureTail(t: seq<Event>, r: Result<(), Error>) {
    && t != [] && t[0].Received?
    && if !t[0].capture.Blocked? then |t| == 2 && t[1] == Joined(Stdout, r.Ok?) && r != Err(Fatal)
       else if 2 < |t| && t[2].Received? && !t[2].capture.Blocked? then
         |t| == 4 && t[1].GroupKill? && t[3] == Joined(Stdout, r.Ok?) && r != Err(Fatal)
       else
         && r == Err(Fatal) && 2 < |t| && t[1].GroupKill?
         && t[2] == if t[1].signal.SignalFailed? then Contained else Received(Stdout, Blocked)
  }

  // ---------------------------------------------------------------- the child and the calls made on it

  class Child {
    const env: nat -> Reply
    var calls: nat
    ghost var trace: Trace
    ghost var log: seq<Event>
    ghost var now: Progress

    constructor (env: nat -> Reply)
      ensures Valid() && log == [] && now == START && calls == 0 && this.env == env
    {
      this.env, calls, trace, log, now := env, 0, Begin, [], START;
    }

    /** The run so far is lawful, and `now` summarises it. */
    ghost predicate Valid()
      reads this
    {
      Kept(trace) && now == Sum(trace) && log == Events(trace)
    }

    lemma Lawfully()
      requires Valid()
      ensures Lawful(log) && now == After(log)
    {
      TraceIsLog(trace);
    }

    /** From call `n` on every signal is sent, the child is seen dead and can be reaped, and the pipes close; only the
        capture workers cannot be joined. */
    ghost predicate OnlyJoinsFail(n: nat) {
      forall k :: n <= k ==>
        var reply := env(k);
        reply.signal.Sent? && reply.poll.Exited? && reply.reap.Done? && reply.capture.Output? && !reply.joins
    }

    /** The next reply of the environment; the call it answers is logged. */
    method SignalGroupKill() returns (r: SignalReply)
      requires Valid() && !now.halted && !now.reaped
      modifies this
      ensures r == env(old(calls)).signal && calls == old(calls) + 1
      ensures Valid() && log == old(log) + [GroupKill(r)] && now == Next(old(now), GroupKill(r))
    {
      r := env(calls).signal;
      calls, trace, log, now := calls + 1, Then(trace, GroupKill(r)), log + [GroupKill(r)], Next(now, GroupKill(r));
    }

    method SignalDirectKill()
      requires Valid() && !now.halted && !now.reaped
      modifies this
      ensures calls == old(calls) + 1
      ensures Valid() && log == old(log) + [DirectKill] && now == old(now)
    {
      calls, trace, log, now := calls + 1, Then(trace, DirectKill), log + [DirectKill], Next(now, DirectKill);
    }

    method ObserveExit() returns (r: Poll)
      requires Valid() && !now.halted && !now.reaped
      modifies this
      ensures r == env(old(calls)).poll && calls == old(calls) + 1
      ensures Valid() && log == old(log) + [Observed(r)] && now == Next(old(now), Observed(r))
    {
      r := env(calls).poll;
      calls, trace, log, now := calls + 1, Then(trace, Observed(r)), log + [Observed(r)], Next(now, Observed(r));
    }

    method ReapObserved() returns (r: ReapReply)
      requires Valid() && !now.halted && !now.reaped && now.residual
      modifies this
      ensures r == env(old(calls)).reap && calls == old(calls) + 1
      ensures Valid() && log == old(log) + [Reap(r)] && now == Next(old(now), Reap(r))
    {
      r := env(calls).reap;
      calls, trace, log, now := calls + 1, Then(trace, Reap(r)), log + [Reap(r)], Next(now, Reap(r));
    }

    method ReceiveUntil(s: Stream) returns (r: Capture)
      requires Valid() && !now.halted && !now.reaped
      modifies this
      ensures r == env(old(calls)).capture && calls == old(calls) + 1
      ensures Valid() && log == old(log) + [Received(s, r)] && now == Next(old(now), Received(s, r))
    {
      r := env(calls).capture;
      calls, trace, log, now := calls + 1, Then(trace, Received(s, r)), log + [Received(s, r)],
        Next(now, Received(s, r));
    }

    method Join(s: Stream) returns (ok: bool)
      requires Valid() && !now.halted && !now.reaped
      modifies this
      ensures ok == env(old(calls)).joins && calls == old(calls) + 1
      ensures Valid() && log == old(log) + [Joined(s, ok)] && now == old(now)
    {
      ok := env(calls).joins;
      calls, trace, log, now := calls + 1, Then(trace, Joined(s, ok)), log + [Joined(s, ok)], Next(now, Joined(s, ok));
    }

    /** `fatal_error`: the program ends here. */
    method Contain()
      requires Valid() && !now.halted
      modifies this
      ensures calls == old(calls)
      ensures Valid() && log == old(log) + [Contained] && now == old(now).(halted := true)
    {
      trace, log, now := Then(trace, Contained), log + [Contained], Next(now, Contained);
    }

    // -------------------------------------------------------------- termination and reaping

    /** The polling loop: until the exit is seen, an observation fails, or the deadline, `limit` polls away, passes. */
    method PollForExit(limit: nat) returns (r: Poll)
      requires Valid() && !now.halted && !now.reaped
      modifies this
      ensures Valid() && old(log) <= log && now == old(now).(exited := old(now).exited || r.Exited?)
      ensures r.Running? ==> Repeated(log, |old(log)|, limit + 1, Observed(Running))
      ensures r.PollFailed? ==> Observed(PollFailed) in log
      ensures old(calls) < calls && (OnlyJoinsFail(old(calls)) ==> r.Exited?)
    {
      var left := limit;
      while true
        invariant Valid() && old(log) <= log && now == old(now) && 0 <= left <= limit
        invariant old(calls) <= calls && (OnlyJoinsFail(old(calls)) ==> left == limit)
        invariant |log| == |old(log)| + (limit - left) && Repeated(log, |old(log)|, limit - left, Observed(Running))
        decreases left
      {
        r := ObserveExit();
        assert log[|log| - 1] == Observed(r);
        if r != Running || left == 0 {
          return;
        }
        left := left - 1;
      }
    }

    /** The exit is observed, or the program ends. */
    method WaitForExitObservation(grace: nat) returns (ok: bool)
      requires Valid() && !now.halted && !now.reaped
      modifies this
      ensures Valid() && old(log) <= log && now == old(now).(exited := old(now).exited || ok, halted := !ok)
      ensures !ok ==> Observed(PollFailed) in log || Repeated(log, |old(log)|, grace + 1, Observed(Running))
      ensures old(calls) < calls && (OnlyJoinsFail(old(calls)) ==> ok)
    {
      var r := PollForExit(grace);
      ok := r == Exited;
      if !ok {
        Contain();
      }
    }

    /** Kills the group, waits for the exit, and kills what is left of the group while the zombie pins its id.
        `failed` tells whether some group signal failed for a reason other than an empty group. */
    method ForceExitObserved(grace: nat) returns (ok: bool, failed: bool)
      requires Valid() && !now.halted && !now.reaped
      modifies this
      ensures Valid() && !now.reaped && now.halted == !ok
      ensures old(log) < log && log[|old(log)|].GroupKill?
      ensures log[|old(log)|].signal != Sent ==> |old(log)| + 1 < |log| && log[|old(log)| + 1] == DirectKill
      ensures ok ==> now.exited && now.residual && now.clean == (old(now).clean && !failed)
      ensures ok && !failed ==> now.failures == old(now).failures
      ensures old(calls) < calls
      ensures (OnlyJoinsFail(old(calls) + 1) ==> ok && failed == env(old(calls)).signal.SignalFailed?)
    {
      failed := KillGroupOrChild();
      ok := WaitForExitObservation(grace);
      if ok {
        var r := SignalGroupKill();
        failed := failed || r == SignalFailed;
      }
    }

    /** Kills the group, or, if that signal did not get through, the child itself. */
    method KillGroupOrChild() returns (failed: bool)
      requires Valid() && !now.halted && !now.reaped
      modifies this
      ensures Valid() && old(log) < log && log[|old(log)|] == GroupKill(env(old(calls)).signal)
      ensures env(old(calls)).signal != Sent ==> |old(log)| + 1 < |log| && log[|old(log)| + 1] == DirectKill
      ensures failed == env(old(calls)).signal.SignalFailed?
      ensures now == Next(old(now), GroupKill(env(old(calls)).signal)) && old(calls) < calls
    {
      var r := SignalGroupKill();
      if r != Sent {
        SignalDirectKill();
      }
      return r == SignalFailed;
    }

    method ReapObservedTarget(grace: nat) returns (status: Option<Status>)
      requires Valid() && !now.halted && !now.reaped && now.residual
      modifies this
      ensures Valid() && old(log) <= log && now == old(now).(reaped := status.Some?, halted := status.None?)
      ensures status.Some? ==> log[|log| - 1] == Reap(Done(status.value))
      ensures status.None? ==> Reap(ReapFailed) in log || Repeated(log, |old(log)|, grace + 1, Reap(NotYet))
      ensures old(calls) < calls && (OnlyJoinsFail(old(calls)) ==> status.Some?)
    {
      var left := grace;
      while true
        invariant Valid() && old(log) <= log && now == old(now)
        invariant old(calls) <= calls && (OnlyJoinsFail(old(calls)) ==> left == grace)
        invariant 0 <= left <= grace && |log| == |old(log)| + (grace - left)
        invariant Repeated(log, |old(log)|, grace - left, Reap(NotYet))
        decreases left
      {
        var r := ReapObserved();
        if r.Done? {
          return Some(r.status);
        }
        if r == ReapFailed || left == 0 {
          assert log[|log| - 1] == Reap(r);
          Contain();
          assert log[|log| - 2] == Reap(r);
          return None;
        }
        left := left - 1;
      }
    }

    method ContainGroupErrors(failed: bool) returns (ok: bool)
      requires Valid() && !now.halted
      modifies this
      ensures Valid() && ok == !failed && log == (if failed then old(log) + [Contained] else old(log))
      ensures now == old(now).(halted := failed) && calls == old(calls)
    {
      if failed {
        Contain();
      }
      return !failed;
    }

    /** Returns only with the child reaped and every group signal of this call accounted for. */
    method TerminateTarget(grace: nat) returns (ok: bool)
      requires Valid() && !now.halted && !now.reaped
      modifies this
      ensures Valid() && now.halted == !ok && old(log) < log && log[|old(log)|].GroupKill?
      ensures ok ==> now.exited && now.residual && now.reaped && now.clean == old(now).clean
      ensures ok ==> now.failures == old(now).failures && log[|log| - 1].Reap? && log[|log| - 1].reap.Done?
      ensures OnlyJoinsFail(old(calls)) ==> ok
    {
      var failed;
      ok, failed := ForceExitObserved(grace);
      if ok {
        var status := ReapObservedTarget(grace);
        ok := status.Some?;
      }
      if ok {
        ok := ContainGroupErrors(failed);
      }
    }

    /** Waits for the child within `timeout` polls, then ends its group.  Every way of returning leaves it reaped. */
    method WaitGroupedChild(timeout: nat, grace: nat) returns (r: Result<Status, Error>)
      requires Valid() && !now.halted && !now.reaped
      modifies this
      ensures Valid() && now.halted == (r == Err(Fatal))
      ensures r != Err(Fatal) ==> now.exited && now.residual && now.reaped && now.clean == old(now).clean
      ensures r.Ok? ==> log[|log| - 1] == Reap(Done(r.value))
      ensures r.Err? ==> r.error == Fatal || r.error == Timeout
      ensures r == Err(Timeout) ==> Repeated(log, |old(log)|, timeout + 1, Observed(Running))
    {
      var seen := PollForExit(timeout);
      if seen == PollFailed {
        Contain();
        return Err(Fatal);
      }
      if seen == Running {
        var ok := TerminateTarget(grace);
        return if ok then Err(Timeout) else Err(Fatal);
      }
      var s := SignalGroupKill();
      var status := ReapObservedTarget(grace);
      if status.None? {
        return Err(Fatal);
      }
      var ok := ContainGroupErrors(s == SignalFailed);
      return if ok then Ok(status.value) else Err(Fatal);
    }

    // -------------------------------------------------------------- captured output

    /** One more signal to the group, which its unreaped leader still pins. */
    method SignalOwnedProcessGroup() returns (ok: bool, ghost s: SignalReply)
      requires Valid() && !now.halted && !now.reaped
      modifies this
      ensures Valid() && s == env(old(calls)).signal && calls == old(calls) + 1 && ok == !s.SignalFailed?
      ensures log == old(log) + if ok then [GroupKill(s)] else [GroupKill(s), Contained]
      ensures now == Next(old(now), GroupKill(s)).(halted := !ok)
    {
      var r := SignalGroupKill();
      s := r;
      ok := r != SignalFailed;
      if !ok {
        Contain();
      }
    }

    /** The blocked lone worker is heard once more after a signal to the group; if that fails too, the program ends. */
    method HearAgain() returns (c: Capture, ghost t: seq<Event>)
      requires Valid() && !now.halted && !now.reaped && now.residual
      modifies this
      ensures Valid() && log == old(log) + t && now.halted == c.Blocked?
      ensures !now.reaped && now.residual && now.exited == old(now).exited
      ensures (!now.halted ==> now.clean == old(now).clean)
      ensures 2 <= |t| && t[0].GroupKill?
      ensures if !c.Blocked? then |t| == 2 && t[1] == Received(Stdout, c)
              else if t[0].signal.SignalFailed? then t[1] == Contained else t[1] == Received(Stdout, Blocked)
    {
      var ok, s := SignalOwnedProcessGroup();
      if !ok {
        return Blocked, [GroupKill(s), Contained];
      }
      c := ReceiveUntil(Stdout);
      t := [GroupKill(s), Received(Stdout, c)];
      if c == Blocked {
        Contain();
        t := t + [Contained];
      }
    }

    /** Waits for the one capture worker that was started. */
    method AccountSingleCapture() returns (r: Result<(), Error>, ghost tail: seq<Event>)
      requires Valid() && !now.halted && !now.reaped && now.residual
      modifies this
      ensures Valid() && log == old(log) + tail && SingleCaptureTail(tail, r)
      ensures now.halted == (r == Err(Fatal)) && !now.reaped && now.residual && now.exited == old(now).exited
      ensures r.Err? ==> r.error == Fatal || r.error == CaptureError
      ensures !now.halted ==> now.clean == old(now).clean
      ensures OnlyJoinsFail(old(calls)) ==> r == Err(CaptureError) && old(calls) < calls
    {
      var c := ReceiveUntil(Stdout);
      tail := [Received(Stdout, c)];
      if c == Blocked {
        ghost var t;
        c, t := HearAgain();
        tail := tail + t;
        if c == Blocked {
          return Err(Fatal), tail;
        }
      }
      var joined := Join(Stdout);
      return if joined then Ok(()) else Err(CaptureError), tail + [Joined(Stdout, joined)];
    }

    /** The second chance of a blocked stream. */
    method ReceiveIfBlocked(s: Stream, first: Capture) returns (c: Capture)
      requires Valid() && !now.halted && !now.reaped && now.signalled
      modifies this
      ensures Valid() && now == old(now)
      ensures if first.Blocked? then log == old(log) + [Received(s, c)] else log == old(log) && c == first
    {
      c := first;
      if c == Blocked {
        c := ReceiveUntil(s);
      }
    }

    method JoinBoth() returns (ok: bool)
      requires Valid() && !now.halted && !now.reaped
      modifies this
      ensures Valid() && now == old(now)
      ensures if ok then log == old(log) + [Joined(Stdout, true), Joined(Stderr, true)]
              else
                || log == old(log) + [Joined(Stdout, false)]
                || log == old(log) + [Joined(Stdout, true), Joined(Stderr, false)]
    {
      ok := Join(Stdout);
      if ok {
        ok := Join(Stderr);
      }
    }

    /** Signals the group once more for a stream that is still open, and gives up the output. */
    method UnblockCaptures(out: Capture, err: Capture) returns (error: Error, ghost out': Capture, ghost err': Capture)
      requires Valid() && !now.halted && !now.reaped && now.residual && now.exited && (out.Blocked? || err.Blocked?)
      modifies this
      ensures Valid() && old(log) < log && now.halted == (error == Fatal) && !now.reaped && now.residual && now.exited
      ensures error == Fatal || (error == CaptureError && now.clean == old(now).clean)
      ensures log[|old(log)|].GroupKill?
      ensures error == Fatal <==> log[|old(log)|] == GroupKill(SignalFailed) || out'.Blocked? || err'.Blocked?
      ensures SecondChance(Stdout, out, out', log[|old(log)|]) && SecondChance(Stderr, err, err', log[|old(log)|])
    {
      out', err' := out, err;
      var ok, _ := SignalOwnedProcessGroup();
      if !ok {
        return Fatal, out', err';
      }
      var stdout := ReceiveIfBlocked(Stdout, out);
      var stderr := ReceiveIfBlocked(Stderr, err);
      out', err' := stdout, stderr;
      if stdout == Blocked || stderr == Blocked {
        Contain();
        return Fatal, out', err';
      }
      var _ := JoinBoth();
      return CaptureError, out', err';
    }

    /** A stream heard once more after a signal that went out, if it was blocked. */
    ghost predicate SecondChance(s: Stream, first: Capture, second: Capture, signal: Event)
      reads this
    {
      if first.Blocked? && signal != GroupKill(SignalFailed) then Received(s, second) in log else second == first
    }

    /** Collects both streams while the child is not yet reaped.  A stream still open after the deadline costs the
        group another signal and the output. */
    method CollectCaptures(out: Capture, err: Capture) returns (r: Result<(seq<byte>, seq<byte>), Error>)
      requires Valid() && !now.halted && !now.reaped && now.residual && now.exited
      modifies this
      ensures Valid() && old(log) <= log && now.halted == (r == Err(Fatal)) && !now.reaped && now.residual && now.exited
      ensures r.Err? ==> r.error == Fatal || r.error == CaptureError
      ensures if out.Blocked? || err.Blocked?
              then
                && r.Err? && |old(log)| < |log| && log[|old(log)|].GroupKill?
              else
                && now == old(now)
                && (r.Ok? <==>
                      out.Output? && err.Output? && log == old(log) + [Joined(Stdout, true), Joined(Stderr, true)])
      ensures !now.halted ==> now.clean == old(now).clean
      ensures r.Ok? ==> out == Output(r.value.0) && err == Output(r.value.1) && now == old(now)
    {
      if out == Blocked || err == Blocked {
        var error, _, _ := UnblockCaptures(out, err);
        return Err(error);
      }
      var joined := JoinBoth();
      assert joined <==> log[|log| - 1] == Joined(Stderr, true);
      if !joined || !out.Output? || !err.Output? {
        return Err(CaptureError);
      }
      return Ok((out.bytes, err.bytes));
    }

    // -------------------------------------------------------------- a whole command

    /** Waits for the exit or the timeout; then the group has been signalled since the exit was seen. */
    method AwaitExit(timeout: nat, grace: nat)
      returns (ok: bool, timedOut: bool, failed: bool, out: Capture, err: Capture)
      requires Valid() && now == START
      modifies this
      ensures Valid() && now.halted == !ok && !now.reaped
      ensures ok ==>
                && now.exited && now.residual && now.clean == !failed && Received(Stdout, out) in log
                && Received(Stderr, err) in log
      ensures ok && timedOut ==> Repeated(log, |old(log)|, timeout + 1, Observed(Running))
      ensures ok && !timedOut ==>
                (out.Output? ==> now.stdout == Some(out.bytes)) && (err.Output? ==> now.stderr == Some(err.bytes))
    {
      timedOut, failed, out, err := false, false, Blocked, Blocked;
      var seen := PollForExit(timeout);
      if seen == PollFailed {
        Contain();
        return false, timedOut, failed, out, err;
      }
      if seen == Running {
        ok, failed := ForceExitObserved(grace);
        if ok {
          out := ReceiveUntil(Stdout);
          err := ReceiveUntil(Stderr);
        }
        return ok, true, failed, out, err;
      }
      out := ReceiveUntil(Stdout);
      err := ReceiveUntil(Stderr);
      var s := SignalGroupKill();
      return true, false, s == SignalFailed, out, err;
    }

    /** The part of a command after its workers started.  `armed` tells whether the guard still owns the child. */
    method RunCaptured(timeout: nat, grace: nat) returns (r: Result<(seq<byte>, seq<byte>), Error>, armed: bool)
      requires Valid() && now == START
      modifies this
      ensures Valid() && now.halted == (r == Err(Fatal))
      ensures r != Err(Fatal) ==> !armed && now.exited && now.residual && now.reaped && now.clean
      ensures r.Ok? ==>
                now.stdout == Some(r.value.0) && now.stderr == Some(r.value.1) && log[|log| - 1] == Reap(Done(Code(0)))
      ensures r.Err? && r.error.NonZeroExit? ==> r.error.code != 0 && log[|log| - 1] == Reap(Done(Code(r.error.code)))
      ensures r == Err(Timeout) ==> Repeated(log, |old(log)|, timeout + 1, Observed(Running))
    {
      armed := true;
      var ok, timedOut, failed, out, err := AwaitExit(timeout, grace);
      if !ok {
        return Err(Fatal), armed;
      }
      var capture := CollectCaptures(out, err);
      if capture == Err(Fatal) {
        return Err(Fatal), armed;
      }
      var status := ReapObservedTarget(grace);
      if status.None? {
        return Err(Fatal), armed;
      }
      armed := false;
      ok := ContainGroupErrors(failed);
      if !ok {
        return Err(Fatal), armed;
      }
      if timedOut {
        return Err(Timeout), armed;
      }
      if capture.Err? {
        return Err(capture.error), armed;
      }
      if status.value != Code(0) {
        return Err(if status.value.Code? then NonZeroExit(status.value.code) else KilledBySignal), armed;
      }
      return Ok(capture.value), armed;
    }

    /** The group is ended because a pipe or a worker could not be had. */
    method AbandonSetup(grace: nat, error: Error) returns (r: Result<(seq<byte>, seq<byte>), Error>, armed: bool)
      requires Valid() && now == START && error != Fatal
      modifies this
      ensures Valid() && now.halted == (r == Err(Fatal))
      ensures r != Err(Fatal) ==> r == Err(error) && !armed && now.exited && now.residual && now.reaped && now.clean
    {
      var ok := TerminateTarget(grace);
      return if ok then Err(error) else Err(Fatal), !ok;
    }

    /** The stderr worker could not be started while the stdout worker is already running. */
    method AbandonWithWorker(grace: nat) returns (r: Result<(seq<byte>, seq<byte>), Error>, armed: bool)
      requires Valid() && now == START
      modifies this
      ensures Valid() && now.halted == (r == Err(Fatal)) && r.Err?
      ensures r != Err(Fatal) ==> now.exited && now.residual && now.reaped == !armed
      ensures r != Err(Fatal) && !armed ==> now.clean && r == Err(WorkerUnavailable)
      ensures r != Err(Fatal) && armed ==>
                r == Err(CaptureError) && log != [] && log[|log| - 1] == Joined(Stdout, false)
      ensures OnlyJoinsFail(old(calls) + 1) ==>
                && r == Err(CaptureError) && armed && old(calls) < calls
                && now.clean == !env(old(calls)).signal.SignalFailed?
    {
      armed := true;
      var ok, failed := ForceExitObserved(grace);
      if !ok {
        return Err(Fatal), armed;
      }
      var capture, _ := AccountSingleCapture();
      if capture.Err? {
        return Err(capture.error), armed;
      }
      var status := ReapObservedTarget(grace);
      if status.None? {
        return Err(Fatal), armed;
      }
      armed := false;
      ok := ContainGroupErrors(failed);
      return if ok then Err(WorkerUnavailable) else Err(Fatal), armed;
    }

    /** A command from its spawn on.  However it returns, unless the program ended in containment, the exit was
        observed, the group signalled since, and the child reaped.  A result is trusted output: both pipes closed
        before the first group signal, and every group signal succeeded or found nobody.  A failed group signal goes
        uncontained exactly when only the stderr worker could not be started, the signal failed before the stdout
        worker refused to join, and the guard then terminated the child without a fault. */
    method RunCaptureCommand(outPipe: bool, errPipe: bool, outWorker: bool, errWorker: bool, timeout: nat, grace: nat)
      returns (r: Result<(seq<byte>, seq<byte>), Error>)
      requires Valid() && now == START
      modifies this
      ensures Valid() && Lawful(log) && now == After(log) && now.halted == (r == Err(Fatal))
      ensures r != Err(Fatal) ==> now.exited && now.residual && now.reaped
      ensures !now.halted && !now.clean <==>
                && outPipe && errPipe && outWorker && !errWorker
                && exists m :: FailedThenUnjoined(log, m) && TerminatedWell(log, m)
      ensures !now.halted && !now.clean ==> r == Err(CaptureError)
      ensures outPipe && errPipe && outWorker && !errWorker && OnlyJoinsFail(old(calls) + 1) ==>
                !now.halted && now.clean == !env(old(calls)).signal.SignalFailed?
      ensures r.Ok? ==>
                && outPipe && errPipe && outWorker && errWorker && now.clean && now.stdout == Some(r.value.0)
                && now.stderr == Some(r.value.1)
      ensures r.Ok? ==> log[|log| - 1] == Reap(Done(Code(0)))
      ensures r.Err? && r.error.NonZeroExit? ==> r.error.code != 0 && log[|log| - 1] == Reap(Done(Code(r.error.code)))
      ensures r == Err(Timeout) ==> Repeated(log, |old(log)|, timeout + 1, Observed(Running))
    {
      var armed;
      r, armed := RunUnguarded(outPipe, errPipe, outWorker, errWorker, timeout, grace);
      if armed && r != Err(Fatal) {
        // The guard goes out of scope still armed.
        ghost var mark := log;
        Lawfully();
        var ok := TerminateTarget(grace);
        if !ok {
          r := Err(Fatal);
        } else if !now.clean {
          Lawfully();
          UncontainedMark(mark, log);
        }
      }
      Lawfully();
      forall m: int | FailedThenUnjoined(log, m) && TerminatedWell(log, m) ensures !now.halted && !now.clean {
        UncontainedTrace(log, m);
      }
    }

    /** The same, up to the moment the guard of the child goes out of scope.  It is still armed only when the lone
        capture worker could not be joined. */
    method RunUnguarded(outPipe: bool, errPipe: bool, outWorker: bool, errWorker: bool, timeout: nat, grace: nat)
      returns (r: Result<(seq<byte>, seq<byte>), Error>, armed: bool)
      requires Valid() && now == START
      modifies this
      ensures Valid() && now.halted == (r == Err(Fatal))
      ensures r != Err(Fatal) ==> now.exited && now.residual && now.reaped == !armed && (armed || now.clean)
      ensures r != Err(Fatal) && armed ==>
                && outPipe && errPipe && outWorker && !errWorker
                && r == Err(CaptureError) && log != [] && log[|log| - 1] == Joined(Stdout, false)
      ensures outPipe && errPipe && outWorker && !errWorker && OnlyJoinsFail(old(calls) + 1) ==>
                r == Err(CaptureError) && armed && old(calls) < calls &&
                  now.clean == !env(old(calls)).signal.SignalFailed?
      ensures r.Ok? ==>
                && outPipe && errPipe && outWorker && errWorker && now.stdout == Some(r.value.0)
                && now.stderr == Some(r.value.1)
      ensures r.Ok? ==> log[|log| - 1] == Reap(Done(Code(0)))
      ensures r.Err? && r.error.NonZeroExit? ==> r.error.code != 0 && log[|log| - 1] == Reap(Done(Code(r.error.code)))
      ensures r == Err(Timeout) ==> Repeated(log, |old(log)|, timeout + 1, Observed(Running))
    {
      if !outPipe || !errPipe {
        r, armed := AbandonSetup(grace, PipeUnavailable);
      } else if !outWorker {
        r, armed := AbandonSetup(grace, WorkerUnavailable);
      } else if !errWorker {
        r, armed := AbandonWithWorker(grace);
      } else {
        r, armed := RunCaptured(timeout, grace);
      }
    }
  }

  /** One run that leaves a failed group signal uncontained: the first signal fails, the exit is seen, the stdout worker
      cannot be joined, and the guard's own signals go out. */
  method UncontainedRun() returns (child: Child, r: Result<(seq<byte>, seq<byte>), Error>)
    ensures fresh(child) && child.Valid() && r == Err(CaptureError)
    ensures !child.now.halted && !child.now.clean && child.now.reaped
  {
    child := new Child(n => Reply(if n == 0 then SignalFailed else Sent, Exited, Done(Code(0)), Output([]), false));
    r := child.RunCaptureCommand(true, true, true, false, 0, 0);
  }
}
