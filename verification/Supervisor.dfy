/** The pressure supervisor: the in-memory decision maker, the durable records it acts through, and its main
    loop, with a crash possible between any two durable steps. */
module Supervisor {
  import opened Bytes
  import opened Pressure

  const TERM_GRACE_MS: nat := 5000

  datatype Action = CloseAdmission | ReduceVramCache | FreezeDiscardable | ThawDiscardable | RequestReclaim
                  | TerminateDiscardable | KillDiscardable

  datatype Victim = Victim(unit: string, invocationId: string)

  // ---------------------------------------------------------------- durable records

  datatype FrozenPhase = FreezePending | FreezeApplied

  datatype FrozenRecord = FrozenRecord(phase: FrozenPhase, victim: Victim, updatedAt: nat)

  datatype EmergencyPhase = PendingTerm | Termed | Killed

  datatype EmergencyRecord = EmergencyRecord(phase: EmergencyPhase, victim: Victim, termAt: Option<u64>, updatedAt: nat)

  function Rank(p: EmergencyPhase): nat {
    match p
    case PendingTerm => 1
    case Termed => 2
    case Killed => 3
  }

  /** Why an action did not succeed. */
  datatype Failure = Io | Identity | UnitRefused | NoVictim | NoFrozenScope | AlreadyKilled | NoTermOutcome
                   | GraceNotElapsed | BadRecord

  datatype Outcome = Succeeded | Failed(why: Failure) | Crashed

  // ---------------------------------------------------------------- the decision maker

  /** What a decision contains, each action exactly when it is called for, at most once, a thaw first. */
  ghost predicate Decision(actions: seq<Action>, state: State, frozen: bool, pending: bool, eligible: Option<u64>,
                           sent: bool, elapsed: u64)
  {
    && (CloseAdmission in actions <==> !state.Healthy?)
    && (ReduceVramCache in actions <==> state.Critical? || state.Emergency?)
    && (RequestReclaim in actions <==> state.Critical? || state.Emergency?)
    && (FreezeDiscardable in actions <==> state.Critical? && !frozen)
    && (ThawDiscardable in actions <==> (frozen || pending) && !state.Critical?)
    && (TerminateDiscardable in actions <==> state.Emergency? && eligible.None?)
    && (KillDiscardable in actions <==> state.Emergency? && eligible.Some? && eligible.value <= elapsed && !sent)
    && (forall i, j :: 0 <= i < j < |actions| ==> actions[i] != actions[j])
    && (ThawDiscardable in actions ==> actions[0] == ThawDiscardable)
  }

  lemma OnlyEmergencyKills(actions: seq<Action>, state: State, frozen: bool, pending: bool, eligible: Option<u64>,
                           sent: bool, eligible': Option<u64>, sent': bool, elapsed: u64)
    requires Decision(actions, state, frozen, pending, eligible, sent, elapsed)
    requires state.Emergency? ==> eligible == eligible' && sent == sent'
    ensures Decision(actions, state, frozen, pending, eligible', sent', elapsed)
  {
  }

  class PressureSupervisor {
    var state: State
    var guardedPsi: nat
    var criticalPsi: nat
    var emergencyPsi: nat
    var healthySamples: nat
    var killEligibleMs: Option<u64>
    var killSent: bool
    var frozen: bool
    var freezePending: bool
    /** Every sample observed by this process. */
    ghost var history: seq<Sample>

    constructor ()
      ensures Valid() && history == [] && fresh(this)
    {
      state, guardedPsi, criticalPsi, emergencyPsi, healthySamples := Healthy, 0, 0, 0, 0;
      killEligibleMs, killSent, frozen, freezePending := None, false, false, false;
      history := [];
    }

    ghost function Recalls(): Memory
      reads this`frozen, this`freezePending, this`killEligibleMs, this`killSent
    {
      Memory(frozen, freezePending, killEligibleMs, killSent)
    }

    /** The counters summarise the history, and the state is the one the history calls for. */
    ghost predicate Valid()
      reads this`state, this`guardedPsi, this`criticalPsi, this`emergencyPsi, this`healthySamples, this`history
    {
      && Counts(guardedPsi, history, PsiAtLeast(2.0)) && Counts(criticalPsi, history, PsiAtLeast(5.0))
      && Counts(emergencyPsi, history, PsiAtLeast(10.0)) && Counts(healthySamples, history, Health())
      && state == StateOf(history)
    }

    /** Takes one sample and decides what to do. */
    method Observe(s: Sample) returns (actions: seq<Action>)
      requires Valid()
      modifies this
      ensures Valid() && history == old(history) + [s]
      ensures frozen == old(frozen) && freezePending == old(freezePending)
      ensures Decision(actions, state, frozen, freezePending, old(killEligibleMs), old(killSent), s.elapsedMs)
      ensures if state.Emergency? then killEligibleMs == old(killEligibleMs) && killSent == old(killSent)
              else killEligibleMs.None? && !killSent
    {
      Track(s);
      if state != Emergency {
        killEligibleMs, killSent := None, false;
      }
      actions := Decide(s);
      OnlyEmergencyKills(actions, state, frozen, freezePending, killEligibleMs, killSent, old(killEligibleMs),
                         old(killSent), s.elapsedMs);
    }

    /** Advances the counters and the state by one sample. */
    method Track(s: Sample)
      requires Valid()
      modifies this`state, this`guardedPsi, this`criticalPsi, this`emergencyPsi, this`healthySamples, this`history
      ensures Valid() && history == old(history) + [s]
    {
      CountsStep(guardedPsi, history, s, PsiAtLeast(2.0));
      CountsStep(criticalPsi, history, s, PsiAtLeast(5.0));
      CountsStep(emergencyPsi, history, s, PsiAtLeast(10.0));
      CountsStep(healthySamples, history, s, Health());
      ghost var next := history + [s];
      guardedPsi := Streak(guardedPsi, s.psi >= 2.0);
      criticalPsi := Streak(criticalPsi, s.psi >= 5.0);
      emergencyPsi := Streak(emergencyPsi, s.psi >= 10.0);
      var requested := Request(s, next);
      if requested == Healthy {
        healthySamples := Streak(healthySamples, FullyHealthy(s));
        StateStep(history, s, healthySamples);
        state := if state == Healthy || healthySamples >= RECOVERY_SAMPLES then Healthy else Guarded;
      } else {
        if FullyHealthy(s) {
          HealthyIsQuiet(next);
          assert false;
        }
        healthySamples := 0;
        StateStep(history, s, healthySamples);
        state := requested;
      }
      history := next;
    }

    /** What the updated counters and the sample call for. */
    method Request(s: Sample, ghost next: seq<Sample>) returns (requested: State)
      requires next != [] && next[|next| - 1] == s
      requires Counts(guardedPsi, next, PsiAtLeast(2.0)) && Counts(criticalPsi, next, PsiAtLeast(5.0))
      requires Counts(emergencyPsi, next, PsiAtLeast(10.0))
      ensures requested == Requested(next)
    {
      PsiWindow(guardedPsi, next, 2.0, 3);
      PsiWindow(criticalPsi, next, 5.0, 5);
      PsiWindow(emergencyPsi, next, 10.0, 5);
      var emergency := s.available < s.reserve / 2 || emergencyPsi >= 5 || s.delayMs >= 3000;
      var critical := s.available < SatMul(s.reserve, 3) / 4 || criticalPsi >= 5;
      var guarded := s.available < s.reserve || guardedPsi >= 3;
      requested := if emergency then Emergency else if critical then Critical else if guarded then Guarded else Healthy;
    }

    /** The action list for the current state, most urgent repair first. */
    method Decide(s: Sample) returns (actions: seq<Action>)
      ensures Decision(actions, state, frozen, freezePending, killEligibleMs, killSent, s.elapsedMs)
    {
      match state {
        case Healthy => actions := [];
        case Guarded => actions := [CloseAdmission];
        case Critical =>
          if frozen {
            actions := [CloseAdmission, ReduceVramCache, RequestReclaim];
          } else {
            actions := [CloseAdmission, ReduceVramCache, FreezeDiscardable, RequestReclaim];
          }
          return;
        case Emergency =>
          actions := [CloseAdmission, ReduceVramCache, RequestReclaim];
          if killEligibleMs.Some? && s.elapsedMs >= killEligibleMs.value {
            if !killSent {
              actions := [CloseAdmission, ReduceVramCache, RequestReclaim, KillDiscardable];
            }
          } else if killEligibleMs.None? {
            actions := [CloseAdmission, ReduceVramCache, RequestReclaim, TerminateDiscardable];
          }
      }
      if frozen || freezePending {
        actions := [ThawDiscardable] + actions;
      }
    }

    /** Rebuilds the action state from the durable records; fails on a TERM record from the future. */
    method RecoverActionState(frozenRecord: Option<FrozenRecord>, emergency: Option<EmergencyRecord>, now: u64,
                              elapsed: u64)
      returns (ok: bool)
      requires Valid()
      modifies this
      ensures Valid() && history == old(history)
      ensures !ok <==> emergency.Some? && emergency.value.phase.Termed? &&
                       (emergency.value.termAt.None? || emergency.value.termAt.value > now)
      ensures frozen <==> frozenRecord.Some? && frozenRecord.value.phase.FreezeApplied?
      ensures freezePending <==> frozenRecord.Some? && frozenRecord.value.phase.FreezePending?
      ensures ok ==> (killEligibleMs.None? <==> emergency.None? || emergency.value.phase.PendingTerm?)
      ensures ok && emergency.Some? && emergency.value.phase.Killed? ==> killSent
      ensures ok && emergency.Some? && emergency.value.phase.Termed? ==>
                && !killSent
                && (killEligibleMs.value <= elapsed <==>
                      emergency.value.termAt.value + TERM_GRACE_MS <= now || elapsed == U64_MAX)
    {
      frozen := frozenRecord.Some? && frozenRecord.value.phase.FreezeApplied?;
      freezePending := frozenRecord.Some? && frozenRecord.value.phase.FreezePending?;
      if emergency.Some? && emergency.value.phase.Termed? {
        var termAt := emergency.value.termAt;
        if termAt.None? || termAt.value > now {
          return false;
        }
        var age := now - termAt.value;
        killEligibleMs := Some(SatAdd(elapsed, SatSub(TERM_GRACE_MS, age)));
        killSent := false;
      } else if emergency.Some? && emergency.value.phase.Killed? {
        killEligibleMs, killSent := Some(elapsed), true;
      } else {
        killEligibleMs, killSent := None, false;
      }
      return true;
    }
  }

  // ---------------------------------------------------------------- the durable world

  /** How a durable replacement or removal of a record ends.  A reported failure, or a crash, may leave the old
      record or the new one, because the rename precedes the directory sync. */
  datatype WriteReply = Landed | FailedKept | FailedLanded | CrashKept | CrashLanded

  /** How an identity-bound unit action ends.  A reported failure, or a crash, may or may not have had its effect. */
  datatype UnitReply = Done | WrongInstance | RefusedApplied | RefusedIdle | CrashApplied | CrashIdle

  /** What has happened to records and units, in order. */
  datatype Event =
    | EmergencySet(phase: EmergencyPhase, victim: Victim, termAt: Option<u64>)
    | TermEffect(victim: Victim, at: u64)
    | TermOk(victim: Victim, at: u64)
    | KillEffect(victim: Victim, at: u64)
    | FrozenSet(victim: Victim)
    | FreezeEffect(victim: Victim)
    | ThawOk(victim: Victim)
    | FrozenCleared(victim: Victim)

  /** A TERM or KILL that reached its unit. */
  predicate Strikes(e: Event) {
    e.TermEffect? || e.KillEffect?
  }

  /** One fixed victim: every strike and every emergency record names it. */
  ghost predicate OneVictim(log: seq<Event>, v: Victim) {
    forall i :: 0 <= i < |log| && (Strikes(log[i]) || log[i].EmergencySet?) ==> log[i].victim == v
  }

  /** Record phases never go back. */
  ghost predicate PhasesAdvance(log: seq<Event>) {
    forall i, j :: 0 <= i < j < |log| && log[i].EmergencySet? && log[j].EmergencySet? ==>
      Rank(log[i].phase) <= Rank(log[j].phase)
  }

  /** Before position `n`: a TERM of `v` succeeded at time `at`, and was then recorded. */
  ghost predicate TermRecorded(log: seq<Event>, v: Victim, at: u64, n: nat) {
    exists a, b :: 0 <= a < b < n <= |log| && log[a] == TermOk(v, at) && log[b] == EmergencySet(Termed, v, Some(at))
  }

  /** The grace of a TERM at `at` is over at `now`.  The deadline saturates, so at the last representable
      millisecond every grace is over. */
  predicate GraceOver(at: u64, now: u64)
    ensures GraceOver(at, now) <==> at + TERM_GRACE_MS <= now || now == U64_MAX
  {
    SatAdd(at, TERM_GRACE_MS) <= now
  }

  /** Every KILL follows a TERM of the same instance that succeeded and was recorded at least the grace earlier. */
  ghost predicate KillsFollowTerm(log: seq<Event>) {
    forall i :: 0 <= i < |log| && log[i].KillEffect? ==>
      exists at: u64 :: GraceOver(at, log[i].at) && TermRecorded(log, log[i].victim, at, i)
  }

  /** A frozen record is removed only right after a successful thaw of the instance it names. */
  ghost predicate ClearsFollowThaw(log: seq<Event>) {
    forall i :: 0 <= i < |log| && log[i].FrozenCleared? ==> 0 < i && log[i - 1] == ThawOk(log[i].victim)
  }

  /** The durable emergency record and the history agree, and the history is safe. */
  ghost predicate EmergencySafe(log: seq<Event>, r: Option<EmergencyRecord>) {
    && PhasesAdvance(log) && KillsFollowTerm(log)
    && (r.None? ==> forall i :: 0 <= i < |log| ==> !Strikes(log[i]) && !log[i].EmergencySet?)
    && (r.Some? ==>
          && OneVictim(log, r.value.victim)
          && (forall i :: 0 <= i < |log| && log[i].EmergencySet? ==> Rank(log[i].phase) <= Rank(r.value.phase))
          && (r.value.phase.PendingTerm? ==> r.value.termAt.None?)
          && (!r.value.phase.PendingTerm? ==>
                r.value.termAt.Some? && TermRecorded(log, r.value.victim, r.value.termAt.value, |log|)))
  }

  lemma TermRecordedExtend(log: seq<Event>, e: Event, v: Victim, at: u64, n: nat)
    requires TermRecorded(log, v, at, n)
    ensures TermRecorded(log + [e], v, at, n) && (n == |log| ==> TermRecorded(log + [e], v, at, n + 1))
  {
    var a, b :| 0 <= a < b < n <= |log| && log[a] == TermOk(v, at) && log[b] == EmergencySet(Termed, v, Some(at));
    assert (log + [e])[a] == log[a] && (log + [e])[b] == log[b];
  }

  /** Adding an event keeps the emergency history safe if it moves the record forward for the same victim, strikes
      the recorded victim (a KILL only once the grace of a recorded TERM is over), or is about something else. */
  lemma EmergencyExtend(log: seq<Event>, r: Option<EmergencyRecord>, e: Event, r': Option<EmergencyRecord>)
    requires EmergencySafe(log, r)
    requires e.EmergencySet? ==>
               && r'.Some? && r'.value.phase == e.phase && r'.value.victim == e.victim && r'.value.termAt == e.termAt
               && (r.Some? ==> r.value.victim == e.victim && Rank(r.value.phase) <= Rank(e.phase))
               && (e.phase.PendingTerm? ==> e.termAt.None?)
               && (e.phase.Termed? ==>
                     e.termAt.Some? && exists a :: 0 <= a < |log| && log[a] == TermOk(e.victim, e.termAt.value))
               && (e.phase.Killed? ==> r.Some? && !r.value.phase.PendingTerm? && e.termAt == r.value.termAt)
    requires !e.EmergencySet? ==> r' == r
    requires Strikes(e) ==> r.Some? && e.victim == r.value.victim
    requires e.KillEffect? ==>
               r.value.termAt.Some? && !r.value.phase.PendingTerm? && GraceOver(r.value.termAt.value, e.at)
    ensures EmergencySafe(log + [e], r')
  {
    var next := log + [e];
    forall i | 0 <= i < |next| && next[i].KillEffect?
      ensures exists at: u64 :: GraceOver(at, next[i].at) && TermRecorded(next, next[i].victim, at, i)
    {
      if i < |log| {
        assert log[i].KillEffect?;
        var at: u64 :| GraceOver(at, log[i].at) && TermRecorded(log, log[i].victim, at, i);
        TermRecordedExtend(log, e, log[i].victim, at, i);
      } else {
        TermRecordedExtend(log, e, e.victim, r.value.termAt.value, |log|);
      }
    }
    if r'.Some? && !r'.value.phase.PendingTerm? {
      if e.EmergencySet? && e.phase.Termed? {
        var a :| 0 <= a < |log| && log[a] == TermOk(e.victim, e.termAt.value);
        assert next[a] == log[a] && next[|log|] == e;
        assert TermRecorded(next, e.victim, e.termAt.value, |next|);
      } else {
        TermRecordedExtend(log, e, r.value.victim, r.value.termAt.value, |log|);
      }
    }
  }

  /** The runtime directory and the units: everything a crash leaves behind.  Its answers are adversarial. */
  class Runtime {
    const writes: nat -> WriteReply
    const units: nat -> UnitReply
    /** Whether a record read succeeds. */
    const recordReads: nat -> bool
    var calls: nat
    var frozenRecord: Option<FrozenRecord>
    var emergency: Option<EmergencyRecord>
    /** The scope instances that a supervisor has frozen and nobody has thawed. */
    ghost var held: set<Victim>
    ghost var log: seq<Event>

    constructor (writes: nat -> WriteReply, units: nat -> UnitReply, recordReads: nat -> bool)
      ensures Safe() && emergency.None? && frozenRecord.None? && log == []
      ensures this.writes == writes && this.units == units && this.recordReads == recordReads
    {
      this.writes, this.units, this.recordReads, calls := writes, units, recordReads, 0;
      frozenRecord, emergency, held, log := None, None, {}, [];
    }

    /** What every run keeps, whatever fails or crashes. */
    ghost predicate Safe()
      reads this
    {
      EmergencySafe(log, emergency) && FrozenSafe()
    }

    /** At most one instance is held frozen and the durable record names it; records go only after a thaw. */
    ghost predicate FrozenSafe()
      reads this`log, this`frozenRecord, this`held
    {
      && ClearsFollowThaw(log)
      && (frozenRecord.None? ==> held == {})
      && (frozenRecord.Some? ==> held <= {frozenRecord.value.victim})
    }

    /** A failure or crash of the environment's making is what its last answer, given since call `before`, says. */
    ghost predicate Blamed(r: Outcome, before: nat)
      reads this`calls
    {
      match r
      case Failed(Io) => before < calls &&
        (!recordReads(calls - 1) || writes(calls - 1).FailedKept? || writes(calls - 1).FailedLanded?)
      case Failed(Identity) => before < calls && units(calls - 1).WrongInstance?
      case Failed(UnitRefused) => before < calls && (units(calls - 1).RefusedApplied? || units(calls - 1).RefusedIdle?)
      case Crashed =>
        before < calls && (writes(calls - 1).CrashKept? || writes(calls - 1).CrashLanded? ||
                           units(calls - 1).CrashApplied? || units(calls - 1).CrashIdle?)
      case _ => true
    }

    /** No TERM or KILL has reached a unit since the history had length `n`. */
    ghost predicate NoStrikeSince(n: nat)
      reads this`log
    {
      forall i :: n <= i < |log| ==> !Strikes(log[i])
    }

    /** Scopes may exit at any time. */
    ghost method ScopesExit(gone: set<Victim>)
      requires Safe()
      modifies this`held
      ensures Safe()
    {
      held := held - gone;
    }

    ghost method Note(e: Event)
      requires EmergencySafe(log, emergency) && ClearsFollowThaw(log)
      requires !e.EmergencySet? && (e.FrozenCleared? ==> log != [] && log[|log| - 1] == ThawOk(e.victim))
      requires Strikes(e) ==> emergency.Some? && e.victim == emergency.value.victim
      requires e.KillEffect? ==> emergency.value.termAt.Some? && !emergency.value.phase.PendingTerm? &&
                                 GraceOver(emergency.value.termAt.value, e.at)
      modifies this`log
      ensures EmergencySafe(log, emergency) && ClearsFollowThaw(log) && log == old(log) + [e]
    {
      EmergencyExtend(log, emergency, e, emergency);
      log := log + [e];
    }

    /** Reads succeed or fail as the environment likes; a record stamped zero is never accepted. */
    method ReadFrozen() returns (r: Result<Option<FrozenRecord>, Failure>)
      modifies this`calls
      ensures calls == old(calls) + 1
      ensures r.Ok? ==> r.value == frozenRecord
      ensures r.Ok? && r.value.Some? ==> r.value.value.updatedAt != 0
      ensures r.Err? ==>
                (r.error == Io && !recordReads(old(calls))) ||
                  (r.error == BadRecord && frozenRecord.Some? && frozenRecord.value.updatedAt == 0)
    {
      var ok := recordReads(calls);
      calls := calls + 1;
      if !ok {
        return Err(Io);
      }
      if frozenRecord.Some? && frozenRecord.value.updatedAt == 0 {
        return Err(BadRecord);
      }
      return Ok(frozenRecord);
    }

    method ReadEmergency() returns (r: Result<Option<EmergencyRecord>, Failure>)
      requires EmergencySafe(log, emergency)
      modifies this`calls
      ensures calls == old(calls) + 1
      ensures r.Ok? ==> r.value == emergency
      ensures r.Err? <==> !recordReads(old(calls)) || (emergency.Some? && emergency.value.updatedAt == 0)
      ensures r.Err? ==> r.error == if recordReads(old(calls)) then BadRecord else Io
    {
      var ok := recordReads(calls);
      calls := calls + 1;
      if !ok {
        return Err(Io);
      }
      if emergency.Some? && (emergency.value.updatedAt == 0 ||
                             (emergency.value.phase.PendingTerm? && emergency.value.termAt.Some?) ||
                             (!emergency.value.phase.PendingTerm? && emergency.value.termAt.None?)) {
        return Err(BadRecord);
      }
      return Ok(emergency);
    }

    /** A new emergency record reaches the disk. */
    method StoreEmergency(phase: EmergencyPhase, victim: Victim, termAt: Option<u64>, now: u64)
      requires Safe()
      requires emergency.Some? ==> emergency.value.victim == victim && Rank(emergency.value.phase) <= Rank(phase)
      requires phase.PendingTerm? ==> termAt.None?
      requires phase.Termed? ==> termAt.Some? && exists a :: 0 <= a < |log| && log[a] == TermOk(victim, termAt.value)
      requires phase.Killed? ==>
                 emergency.Some? && !emergency.value.phase.PendingTerm? && termAt == emergency.value.termAt
      modifies this`emergency, this`log
      ensures Safe() && emergency == Some(EmergencyRecord(phase, victim, termAt, now))
      ensures log == old(log) + [EmergencySet(phase, victim, termAt)]
    {
      ghost var was := emergency;
      emergency := Some(EmergencyRecord(phase, victim, termAt, now));
      EmergencyExtend(log, was, EmergencySet(phase, victim, termAt), emergency);
      log := log + [EmergencySet(phase, victim, termAt)];
    }

    /** Durably replaces the emergency record. */
    method WriteEmergency(phase: EmergencyPhase, victim: Victim, termAt: Option<u64>, now: u64) returns (r: Outcome)
      requires Safe()
      requires emergency.Some? ==> emergency.value.victim == victim && Rank(emergency.value.phase) <= Rank(phase)
      requires phase.PendingTerm? ==> termAt.None?
      requires phase.Termed? ==> termAt.Some? && exists a :: 0 <= a < |log| && log[a] == TermOk(victim, termAt.value)
      requires phase.Killed? ==>
                 emergency.Some? && !emergency.value.phase.PendingTerm? && termAt == emergency.value.termAt
      modifies this`calls, this`emergency, this`log
      ensures Safe()
      ensures emergency == old(emergency) || emergency == Some(EmergencyRecord(phase, victim, termAt, now))
      ensures r.Succeeded? ==> emergency == Some(EmergencyRecord(phase, victim, termAt, now))
      ensures r.Failed? ==> r.why == Io
      ensures old(calls) < calls && Blamed(r, old(calls))
      ensures log == if emergency == old(emergency) && log == old(log) then old(log)
              else old(log) + [EmergencySet(phase, victim, termAt)]
    {
      var reply := writes(calls);
      calls := calls + 1;
      if reply.Landed? || reply.FailedLanded? || reply.CrashLanded? {
        StoreEmergency(phase, victim, termAt, now);
      }
      r := if reply.Landed? then Succeeded else if reply.CrashKept? || reply.CrashLanded? then Crashed else Failed(Io);
    }

    /** Durably replaces the frozen record. */
    method WriteFrozen(phase: FrozenPhase, victim: Victim, now: u64) returns (r: Outcome)
      requires Safe() && (frozenRecord.Some? ==> frozenRecord.value.victim == victim)
      modifies this`calls, this`frozenRecord, this`log
      ensures Safe()
      ensures frozenRecord == old(frozenRecord) || frozenRecord == Some(FrozenRecord(phase, victim, now))
      ensures r.Succeeded? ==> frozenRecord == Some(FrozenRecord(phase, victim, now))
      ensures r.Failed? ==> r.why == Io
      ensures old(calls) < calls && Blamed(r, old(calls))
    {
      var reply := writes(calls);
      calls := calls + 1;
      if reply.Landed? || reply.FailedLanded? || reply.CrashLanded? {
        Note(FrozenSet(victim));
        frozenRecord := Some(FrozenRecord(phase, victim, now));
      }
      r := if reply.Landed? then Succeeded else if reply.CrashKept? || reply.CrashLanded? then Crashed else Failed(Io);
    }

    /** Removes the frozen record, directly after the thaw that permits it. */
    method RemoveFrozen(ghost victim: Victim) returns (r: Outcome)
      requires Safe() && frozenRecord.Some? && frozenRecord.value.victim == victim && victim !in held
      requires log != [] && log[|log| - 1] == ThawOk(victim)
      modifies this`calls, this`frozenRecord, this`log
      ensures Safe()
      ensures frozenRecord.None? || frozenRecord == old(frozenRecord)
      ensures r.Succeeded? ==> frozenRecord.None?
      ensures r.Failed? ==> r.why == Io
      ensures old(calls) < calls && Blamed(r, old(calls))
    {
      var reply := writes(calls);
      calls := calls + 1;
      if reply.Landed? || reply.FailedLanded? || reply.CrashLanded? {
        Note(FrozenCleared(victim));
        frozenRecord := None;
      }
      r := if reply.Landed? then Succeeded else if reply.CrashKept? || reply.CrashLanded? then Crashed else Failed(Io);
    }

    /** One identity-bound unit action: whether its effect happened, and what the caller is told. */
    method RunUnit() returns (r: Outcome, applied: bool)
      modifies this`calls
      ensures r.Succeeded? ==> applied
      ensures r.Failed? ==> r.why == Identity || r.why == UnitRefused
      ensures r.Failed? && r.why == Identity ==> !applied
      ensures old(calls) < calls && Blamed(r, old(calls))
    {
      var reply := units(calls);
      calls := calls + 1;
      match reply
      case Done => return Succeeded, true;
      case WrongInstance => return Failed(Identity), false;
      case RefusedApplied => return Failed(UnitRefused), true;
      case RefusedIdle => return Failed(UnitRefused), false;
      case CrashApplied => return Crashed, true;
      case CrashIdle => return Crashed, false;
    }

    // ------------------------------------------------------------ the four durable actions

    /** Freeze: pending record, effect, applied record. */
    method ExecuteFreeze(selected: Option<Victim>, now: u64) returns (r: Outcome)
      requires Safe()
      modifies this
      ensures Safe() && emergency == old(emergency)
      ensures r.Succeeded? ==> frozenRecord.Some? && frozenRecord.value.phase.FreezeApplied?
      ensures r.Succeeded? && !(old(frozenRecord).Some? && old(frozenRecord).value.phase.FreezeApplied?) ==>
                frozenRecord.value.victim in held
      ensures old(frozenRecord).Some? ==>
                frozenRecord.Some? && frozenRecord.value.victim == old(frozenRecord).value.victim
      ensures old(frozenRecord).None? && frozenRecord.Some? ==> Some(frozenRecord.value.victim) == selected
      ensures old(calls) <= calls && Blamed(r, old(calls))
      ensures r.Failed? ==>
                r.why == Io || r.why == Identity || r.why == UnitRefused || r.why == NoVictim || r.why == BadRecord
      ensures r == Failed(Identity) ==> held == old(held)
      ensures r == Failed(NoVictim) ==> old(frozenRecord).None? && selected.None?
      ensures r == Failed(BadRecord) ==> old(frozenRecord).Some? && old(frozenRecord).value.updatedAt == 0
    {
      var existing := ReadFrozen();
      if existing.Err? {
        return Failed(existing.error);
      }
      if existing.value.Some? && existing.value.value.phase.FreezeApplied? {
        return Succeeded;
      }
      if existing.value.None? && selected.None? {
        return Failed(NoVictim);
      }
      var victim := if existing.value.Some? then existing.value.value.victim else selected.value;
      r := WriteFrozen(FreezePending, victim, now);
      if !r.Succeeded? {
        return;
      }
      var applied;
      r, applied := RunUnit();
      if applied {
        Note(FreezeEffect(victim));
        held := held + {victim};
      }
      if r.Succeeded? {
        r := WriteFrozen(FreezeApplied, victim, now);
      }
    }

    /** Thaw: effect, then removal of the record. */
    method ExecuteThaw() returns (r: Outcome)
      requires Safe()
      modifies this
      ensures Safe() && emergency == old(emergency)
      ensures r.Succeeded? ==> old(frozenRecord).Some? && frozenRecord.None? && held == {}
      ensures frozenRecord == old(frozenRecord) || (frozenRecord.None? && held == {})
      ensures old(calls) <= calls && Blamed(r, old(calls))
      ensures r.Failed? ==>
                r.why == Io || r.why == Identity || r.why == UnitRefused || r.why == NoFrozenScope || r.why == BadRecord
      ensures r == Failed(NoFrozenScope) ==> old(frozenRecord).None?
      ensures r == Failed(BadRecord) ==> old(frozenRecord).Some? && old(frozenRecord).value.updatedAt == 0
    {
      var existing := ReadFrozen();
      if existing.Err? {
        return Failed(existing.error);
      }
      if existing.value.None? {
        return Failed(NoFrozenScope);
      }
      var victim := existing.value.value.victim;
      var applied;
      r, applied := RunUnit();
      if applied {
        held := held - {victim};
      }
      if r.Succeeded? {
        Note(ThawOk(victim));
        r := RemoveFrozen(victim);
      }
    }

    /** TERM: pending record, effect, termed record. */
    method ExecuteTerm(selected: Option<Victim>, now: u64) returns (r: Outcome)
      requires Safe()
      modifies this`calls, this`emergency, this`log
      ensures Safe()
      ensures r.Succeeded? ==> emergency.Some? && emergency.value.phase.Termed?
      ensures r.Succeeded? && !(old(emergency).Some? && old(emergency).value.phase.Termed?) ==>
                && emergency.value.termAt == Some(now) && emergency.value.updatedAt == now
                && TermRecorded(log, emergency.value.victim, now, |log|)
                && TermEffect(emergency.value.victim, now) in log
      ensures r == Failed(Identity) ==> NoStrikeSince(|old(log)|)
      ensures old(emergency).Some? && old(emergency).value.phase.Killed? ==>
                r != Succeeded && emergency == old(emergency)
      ensures old(emergency).Some? ==> emergency.Some? && emergency.value.victim == old(emergency).value.victim
      ensures old(emergency).None? && emergency.Some? ==> Some(emergency.value.victim) == selected
      ensures old(calls) <= calls && Blamed(r, old(calls))
      ensures r.Failed? ==>
                r.why == Io || r.why == Identity || r.why == UnitRefused || r.why == NoVictim ||
                  r.why == AlreadyKilled || r.why == BadRecord
      ensures r == Failed(NoVictim) ==> old(emergency).None? && selected.None?
      ensures r == Failed(AlreadyKilled) ==> old(emergency).Some? && old(emergency).value.phase.Killed?
      ensures r == Failed(BadRecord) ==> old(emergency).Some? && old(emergency).value.updatedAt == 0
    {
      var existing := ReadEmergency();
      if existing.Err? {
        return Failed(existing.error);
      }
      if existing.value.Some? && existing.value.value.phase.Termed? {
        return Succeeded;
      }
      if existing.value.Some? && existing.value.value.phase.Killed? {
        return Failed(AlreadyKilled);
      }
      if existing.value.None? && selected.None? {
        return Failed(NoVictim);
      }
      var victim := if existing.value.Some? then existing.value.value.victim else selected.value;
      r := TermVictim(victim, now);
    }

    /** The three steps of a TERM, for the victim on record or a first one. */
    method TermVictim(victim: Victim, now: u64) returns (r: Outcome)
      requires Safe() && (emergency.Some? ==> emergency.value.victim == victim && emergency.value.phase.PendingTerm?)
      modifies this`calls, this`emergency, this`log
      ensures Safe() && old(calls) < calls && Blamed(r, old(calls))
      ensures emergency.Some? ==> emergency.value.victim == victim
      ensures old(emergency).Some? ==> emergency.Some?
      ensures r.Succeeded? ==>
                && emergency == Some(EmergencyRecord(Termed, victim, Some(now), now))
                && TermRecorded(log, victim, now, |log|) && TermEffect(victim, now) in log
      ensures r.Failed? ==> r.why == Io || r.why == Identity || r.why == UnitRefused
      ensures r == Failed(Identity) ==> NoStrikeSince(|old(log)|)
    {
      r := WriteEmergency(PendingTerm, victim, None, now);
      if !r.Succeeded? {
        return;
      }
      var applied;
      r, applied := RunUnit();
      if applied {
        Note(TermEffect(victim, now));
      }
      if r.Succeeded? {
        r := RecordTerm(victim, now);
      }
    }

    /** The last step of a TERM: its success is recorded. */
    method RecordTerm(victim: Victim, now: u64) returns (r: Outcome)
      requires Safe() && emergency.Some? && emergency.value.victim == victim && emergency.value.phase.PendingTerm?
      requires log != [] && log[|log| - 1] == TermEffect(victim, now)
      modifies this`calls, this`emergency, this`log
      ensures Safe() && old(calls) < calls && Blamed(r, old(calls))
      ensures emergency.Some? && emergency.value.victim == victim
      ensures r.Succeeded? ==>
                && emergency == Some(EmergencyRecord(Termed, victim, Some(now), now))
                && TermRecorded(log, victim, now, |log|) && TermEffect(victim, now) in log
      ensures r.Failed? ==> r.why == Io
    {
      Note(TermOk(victim, now));
      assert log[|log| - 2] == TermEffect(victim, now) && log[|log| - 1] == TermOk(victim, now);
      r := WriteEmergency(Termed, victim, Some(now), now);
    }

    /** KILL: only after the grace of a recorded TERM; effect, then killed record. */
    method ExecuteKill(now: u64) returns (r: Outcome)
      requires Safe()
      modifies this`calls, this`emergency, this`log
      ensures Safe()
      ensures r == Failed(GraceNotElapsed) <==>
                KillTooEarly(old(emergency), now) && recordReads(old(calls)) && old(emergency).value.updatedAt != 0
      ensures r == Failed(NoTermOutcome) ==> old(emergency).None? || old(emergency).value.phase.PendingTerm?
      ensures old(calls) <= calls && Blamed(r, old(calls))
      ensures r.Failed? ==>
                r.why == Io || r.why == Identity || r.why == UnitRefused || r.why == NoTermOutcome ||
                  r.why == GraceNotElapsed || r.why == BadRecord
      ensures r == Failed(BadRecord) ==> old(emergency).Some? && old(emergency).value.updatedAt == 0
      ensures r == Failed(Identity) ==> NoStrikeSince(|old(log)|)
      ensures KillTooEarly(old(emergency), now) ==> TurnedDown(r) && log == old(log) && emergency == old(emergency)
      ensures r.Succeeded? ==> emergency.Some? && emergency.value.phase.Killed?
      ensures r.Succeeded? && old(emergency).Some? && old(emergency).value.phase.Termed? ==>
                |old(log)| < |log| && log[|old(log)|] == KillEffect(emergency.value.victim, now)
      ensures old(emergency).Some? ==> emergency.Some? && emergency.value.victim == old(emergency).value.victim
    {
      var existing := ReadEmergency();
      if existing.Err? {
        return Failed(existing.error);
      }
      if existing.value.None? {
        return Failed(NoTermOutcome);
      }
      var record := existing.value.value;
      if record.phase.Killed? {
        return Succeeded;
      }
      if !record.phase.Termed? {
        return Failed(NoTermOutcome);
      }
      var termAt := record.termAt.value;
      if now < SatAdd(termAt, TERM_GRACE_MS) {
        return Failed(GraceNotElapsed);
      }
      var applied;
      r, applied := RunUnit();
      if applied {
        Note(KillEffect(record.victim, now));
      }
      if r.Succeeded? {
        r := WriteEmergency(Killed, record.victim, Some(termAt), now);
      }
    }
  }

  /** There is a TERM on record whose grace has not run out. */
  predicate KillTooEarly(r: Option<EmergencyRecord>, now: u64) {
    r.Some? && r.value.phase.Termed? && r.value.termAt.Some? && !GraceOver(r.value.termAt.value, now)
  }

  /** How a KILL ends that never reaches its unit: within the grace, or without a readable record. */
  predicate TurnedDown(r: Outcome) {
    r == Failed(GraceNotElapsed) || r == Failed(Io) || r == Failed(BadRecord)
  }

  // ---------------------------------------------------------------- the main loop

  /** How publishing state, closing admission or writing a request ends; what these do is not modelled. */
  datatype OtherReply = OtherDone | OtherFailed | OtherCrash

  /** One iteration's inputs: the sample, the wall clock, the ledger's choice and the outcome of other requests. */
  datatype Tick = Tick(sample: Sample, now: u64, selected: Option<Victim>, others: nat -> OtherReply)

  datatype Ended = Continues | Exits | Dies

  function Other(reply: OtherReply): Outcome {
    match reply
    case OtherDone => Succeeded
    case OtherFailed => Failed(Io)
    case OtherCrash => Crashed
  }

  /** What the records and the state call for, which is exactly what the loop decides. */
  ghost predicate DecidedFromRecords(actions: seq<Action>, state: State, frozenRecord: Option<FrozenRecord>,
                                     emergency: Option<EmergencyRecord>, tick: Tick)
  {
    && (KillDiscardable in actions <==>
          state.Emergency? && emergency.Some? && emergency.value.phase.Termed? && emergency.value.termAt.Some? &&
          (emergency.value.termAt.value + TERM_GRACE_MS <= tick.now || tick.sample.elapsedMs == U64_MAX))
    && (TerminateDiscardable in actions <==>
          state.Emergency? && (emergency.None? || emergency.value.phase.PendingTerm?))
    && (FreezeDiscardable in actions <==>
          state.Critical? && !(frozenRecord.Some? && frozenRecord.value.phase.FreezeApplied?))
    && (ThawDiscardable in actions <==> !state.Critical? && frozenRecord.Some?)
    && (forall i, j :: 0 <= i < j < |actions| ==> actions[i] != actions[j])
  }

  /** The executor turns down every KILL of a victim still within its grace, and no other for that reason.  The
      loop decides such a KILL only at the last representable millisecond. */
  ghost predicate Vetted(results: seq<(Action, Outcome)>, emergency: Option<EmergencyRecord>, tick: Tick) {
    forall i :: 0 <= i < |results| && results[i].0.KillDiscardable? ==>
      && results[i].1 != Failed(NoTermOutcome)
      && (results[i].1 == Failed(GraceNotElapsed) ==> KillTooEarly(emergency, tick.now))
      && (KillTooEarly(emergency, tick.now) ==> TurnedDown(results[i].1) && tick.sample.elapsedMs == U64_MAX)
  }

  /** A record stamped zero, which no reader accepts. */
  predicate Unstamped(frozenRecord: Option<FrozenRecord>, emergency: Option<EmergencyRecord>) {
    (frozenRecord.Some? && frozenRecord.value.updatedAt == 0) || (emergency.Some? && emergency.value.updatedAt == 0)
  }

  /** A TERM recorded later than now. */
  predicate FromTheFuture(emergency: Option<EmergencyRecord>, now: u64) {
    emergency.Some? && emergency.value.phase.Termed? &&
      (emergency.value.termAt.None? || emergency.value.termAt.value > now)
  }

  /** The action state that the records call for. */
  predicate Rebuilt(frozen: bool, pending: bool, eligible: Option<u64>, sent: bool, frozenRecord: Option<FrozenRecord>,
                    emergency: Option<EmergencyRecord>, tick: Tick)
  {
    && (frozen <==> frozenRecord.Some? && frozenRecord.value.phase.FreezeApplied?)
    && (pending <==> frozenRecord.Some? && frozenRecord.value.phase.FreezePending?)
    && (eligible.None? <==> emergency.None? || emergency.value.phase.PendingTerm?)
    && (emergency.Some? && emergency.value.phase.Killed? ==> sent)
    && (emergency.Some? && emergency.value.phase.Termed? ==>
          && emergency.value.termAt.Some? && !sent
          && (eligible.value <= tick.sample.elapsedMs <==>
                emergency.value.termAt.value + TERM_GRACE_MS <= tick.now || tick.sample.elapsedMs == U64_MAX))
  }

  /** A decision on rebuilt action state is the one the records call for. */
  lemma DecisionFollowsRecords(actions: seq<Action>, state: State, frozen: bool, pending: bool, eligible: Option<u64>,
                               sent: bool,
                               frozenRecord: Option<FrozenRecord>, emergency: Option<EmergencyRecord>, tick: Tick)
    requires Decision(actions, state, frozen, pending, eligible, sent, tick.sample.elapsedMs)
    requires Rebuilt(frozen, pending, eligible, sent, frozenRecord, emergency, tick)
    ensures DecidedFromRecords(actions, state, frozenRecord, emergency, tick)
  {
  }

  /** The process ends when its state could not be published or admission could not be closed. */
  function AfterPublishing(published: Outcome, results: seq<(Action, Outcome)>): Ended {
    if published.Crashed? then Dies else if published.Failed? || (CloseAdmission, Failed(Io)) in results then Exits
      else Continues
  }

  /** What one process remembers of its actions. */
  datatype Memory = Memory(frozen: bool, pending: bool, eligible: Option<u64>, sent: bool)

  /** One result committed to memory. */
  function Commit(m: Memory, r: (Action, Outcome), elapsed: u64): Memory {
    if !r.1.Succeeded? then m
    else
      match r.0
      case FreezeDiscardable => m.(frozen := true, pending := false)
      case ThawDiscardable => m.(frozen := false, pending := false)
      case TerminateDiscardable => m.(eligible := Some(SatAdd(elapsed, TERM_GRACE_MS)))
      case KillDiscardable => m.(sent := true)
      case _ => m
  }

  function CommitAll(m: Memory, results: seq<(Action, Outcome)>, elapsed: u64): Memory {
    if results == [] then m
      else Commit(CommitAll(m, results[..|results| - 1], elapsed), results[|results| - 1], elapsed)
  }

  /** The memory afterwards: a kill was sent if one succeeded now or before, the grace runs from a TERM that succeeded,
      and of freezing and thawing the one that succeeded counts; what did not succeed leaves no trace. */
  ghost predicate Remembered(results: seq<(Action, Outcome)>, was: Memory, now: Memory, elapsed: u64) {
    var froze, thawed := (FreezeDiscardable, Succeeded) in results, (ThawDiscardable, Succeeded) in results;
    && (now.sent <==> was.sent || (KillDiscardable, Succeeded) in results)
    && now.eligible == (if (TerminateDiscardable, Succeeded) in results then Some(SatAdd(elapsed, TERM_GRACE_MS))
                        else was.eligible)
    && (froze && !thawed ==> now.frozen && !now.pending)
    && (thawed && !froze ==> !now.frozen && !now.pending)
    && (!froze && !thawed ==> now.frozen == was.frozen && now.pending == was.pending)
  }

  lemma {:induction false} CommitAllRemembers(m: Memory, results: seq<(Action, Outcome)>, elapsed: u64)
    ensures Remembered(results, m, CommitAll(m, results, elapsed), elapsed)
  {
    if results != [] {
      var n := |results| - 1;
      CommitAllRemembers(m, results[..n], elapsed);
      assert results == results[..n] + [results[n]];
      RememberStep(results[..n], results[n], m, CommitAll(m, results[..n], elapsed), elapsed);
    }
  }

  lemma RememberStep(results: seq<(Action, Outcome)>, r: (Action, Outcome), was: Memory, now: Memory, elapsed: u64)
    requires Remembered(results, was, now, elapsed)
    ensures Remembered(results + [r], was, Commit(now, r, elapsed), elapsed)
  {
    assert forall x :: x in results + [r] <==> x in results || x == r;
  }

  class Loop {
    const rt: Runtime

    constructor (rt: Runtime)
      ensures this.rt == rt
    {
      this.rt := rt;
    }

    method ExecuteOne(action: Action, tick: Tick, k: nat) returns (r: Outcome)
      requires rt.Safe()
      modifies rt
      ensures rt.Safe()
      ensures !action.TerminateDiscardable? && !action.KillDiscardable? ==> rt.emergency == old(rt.emergency)
      ensures action.KillDiscardable? && r == Failed(GraceNotElapsed) ==> KillTooEarly(old(rt.emergency), tick.now)
      ensures action.KillDiscardable? && KillTooEarly(old(rt.emergency), tick.now) ==>
                TurnedDown(r) && rt.emergency == old(rt.emergency)
      ensures action.KillDiscardable? && r == Failed(NoTermOutcome) ==>
                old(rt.emergency).None? || old(rt.emergency).value.phase.PendingTerm?
      ensures old(rt.calls) <= rt.calls
      ensures (r.Crashed? ==> tick.others(k).OtherCrash? || rt.Blamed(Crashed, old(rt.calls)))
    {
      match action
      case CloseAdmission => r := Other(tick.others(k));
      case ReduceVramCache => r := Other(tick.others(k));
      case RequestReclaim => r := Other(tick.others(k));
      case FreezeDiscardable => r := rt.ExecuteFreeze(tick.selected, tick.now);
      case ThawDiscardable => r := rt.ExecuteThaw();
      case TerminateDiscardable => r := rt.ExecuteTerm(tick.selected, tick.now);
      case KillDiscardable => r := rt.ExecuteKill(tick.now);
    }

    /** Runs a decision's actions in order; a crash cuts the list short. */
    method ExecuteActions(actions: seq<Action>, tick: Tick, ghost state: State,
                          ghost frozenRecord: Option<FrozenRecord>)
      returns (results: seq<(Action, Outcome)>, crashed: bool)
      requires rt.Safe() && DecidedFromRecords(actions, state, frozenRecord, rt.emergency, tick)
      modifies rt
      ensures rt.Safe() && Vetted(results, old(rt.emergency), tick)
      ensures KillTooEarly(old(rt.emergency), tick.now) ==> rt.emergency == old(rt.emergency)
      ensures |results| <= |actions| && (!crashed ==> |results| == |actions|)
      ensures forall i :: 0 <= i < |results| ==> results[i].0 == actions[i] && !results[i].1.Crashed?
      ensures crashed ==>
                |results| < |actions| && (tick.others(|results|).OtherCrash? || rt.Blamed(Crashed, old(rt.calls)))
    {
      results, crashed := [], false;
      ghost var before := rt.emergency;
      while |results| < |actions| && !crashed
        invariant rt.Safe() && |results| <= |actions| && Vetted(results, before, tick)
        invariant KillTooEarly(before, tick.now) ==> rt.emergency == before
        invariant forall i :: 0 <= i < |results| ==> results[i].0 == actions[i] && !results[i].1.Crashed?
        invariant old(rt.calls) <= rt.calls
        invariant crashed ==>
                    |results| < |actions| && (tick.others(|results|).OtherCrash? || rt.Blamed(Crashed, old(rt.calls)))
        invariant !crashed && rt.emergency != before ==>
                    exists i :: 0 <= i < |results| && (actions[i].TerminateDiscardable? || actions[i].KillDiscardable?)
        decreases |actions| - |results|, !crashed
      {
        var action := actions[|results|];
        assert action in actions;
        var r := ExecuteOne(action, tick, |results|);
        if action.KillDiscardable? {
          assert KillDiscardable in actions;
          assert TerminateDiscardable !in actions;
        }
        if r.Crashed? {
          crashed := true;
        } else {
          results := results + [(action, r)];
        }
      }
    }

    /** Reads both records and rebuilds the action state from them. */
    method Rebuild(sup: PressureSupervisor, tick: Tick) returns (ok: bool)
      requires rt.Safe() && sup.Valid()
      modifies rt`calls, sup
      ensures sup.Valid() && sup.history == old(sup.history) && old(rt.calls) <= rt.calls
      ensures ok ==>
                Rebuilt(sup.frozen, sup.freezePending, sup.killEligibleMs, sup.killSent, rt.frozenRecord, rt.emergency,
                        tick)
      ensures !ok ==>
                || (old(rt.calls) < rt.calls && !rt.recordReads(rt.calls - 1))
                || Unstamped(rt.frozenRecord, rt.emergency) || FromTheFuture(rt.emergency, tick.now)
    {
      var frozenRecord := rt.ReadFrozen();
      if frozenRecord.Err? {
        return false;
      }
      var emergency := rt.ReadEmergency();
      if emergency.Err? {
        return false;
      }
      ok := sup.RecoverActionState(frozenRecord.value, emergency.value, tick.now, tick.sample.elapsedMs);
    }

    /** One iteration: rebuild from the records, observe, act, publish. */
    method Iterate(sup: PressureSupervisor, tick: Tick)
      returns (ended: Ended, ghost decided: Option<seq<Action>>, results: seq<(Action, Outcome)>)
      requires rt.Safe() && sup.Valid()
      modifies rt, sup
      ensures rt.Safe() && sup.Valid()
      ensures decided.Some? ==> sup.history == old(sup.history) + [tick.sample]
      ensures decided.Some? ==>
                DecidedFromRecords(decided.value, sup.state, old(rt.frozenRecord), old(rt.emergency), tick)
      ensures decided.None? ==>
                && ended.Exits? && results == [] && rt.emergency == old(rt.emergency)
                && rt.frozenRecord == old(rt.frozenRecord)
      ensures decided.None? ==>
                || (old(rt.calls) < rt.calls && !rt.recordReads(rt.calls - 1))
                || Unstamped(old(rt.frozenRecord), old(rt.emergency)) || FromTheFuture(old(rt.emergency), tick.now)
      ensures Vetted(results, old(rt.emergency), tick)
      ensures KillTooEarly(old(rt.emergency), tick.now) ==> rt.emergency == old(rt.emergency)
      ensures decided.Some? ==>
                && |results| <= |decided.value|
                && (forall i :: 0 <= i < |results| ==> results[i].0 == decided.value[i])
                && (|results| < |decided.value| ==>
                      ended.Dies? && (tick.others(|results|).OtherCrash? || rt.Blamed(Crashed, old(rt.calls))))
                && (|results| == |decided.value| ==>
                      ended == AfterPublishing(Other(tick.others(|decided.value|)), results))
    {
      decided, results := None, [];
      var rebuilt := Rebuild(sup, tick);
      if !rebuilt {
        return Exits, decided, results;
      }
      ghost var eligible, sent := sup.killEligibleMs, sup.killSent;
      var actions := sup.Observe(tick.sample);
      DecisionFollowsRecords(actions, sup.state, sup.frozen, sup.freezePending, eligible, sent, rt.frozenRecord,
                             rt.emergency, tick);
      decided := Some(actions);
      var crashed;
      results, crashed := ExecuteActions(actions, tick, sup.state, rt.frozenRecord);
      if crashed {
        return Dies, decided, results;
      }
      var published := Other(tick.others(|actions|));
      CommitActionResults(sup, results, tick.sample.elapsedMs);
      ended := AfterPublishing(published, results);
    }

    /** Remembers what succeeded, until the next iteration rebuilds it from the records. */
    method CommitActionResults(sup: PressureSupervisor, results: seq<(Action, Outcome)>, elapsed: u64)
      requires sup.Valid()
      modifies sup`frozen, sup`freezePending, sup`killEligibleMs, sup`killSent
      ensures sup.Valid() && Remembered(results, old(sup.Recalls()), sup.Recalls(), elapsed)
    {
      for i := 0 to |results|
        invariant sup.Valid() && sup.Recalls() == CommitAll(old(sup.Recalls()), results[..i], elapsed)
      {
        if results[i].1.Succeeded? {
          match results[i].0
          case FreezeDiscardable => sup.frozen, sup.freezePending := true, false;
          case ThawDiscardable => sup.frozen, sup.freezePending := false, false;
          case TerminateDiscardable => sup.killEligibleMs := Some(SatAdd(elapsed, TERM_GRACE_MS));
          case KillDiscardable => sup.killSent := true;
          case _ =>
        }
        assert results[..i + 1][..i] == results[..i];
      }
      assert results[..|results|] == results;
      CommitAllRemembers(old(sup.Recalls()), results, elapsed);
    }
  }

  /** What holds after any number of iterations that started with no records, with crashes and restarts anywhere. */
  ghost predicate RunSafe(rt: Runtime)
    reads rt
  {
    && PhasesAdvance(rt.log) && KillsFollowTerm(rt.log) && ClearsFollowThaw(rt.log)
    && (exists v :: OneVictim(rt.log, v))
    && |rt.held| <= 1 && (forall v :: v in rt.held ==> rt.frozenRecord.Some? && rt.frozenRecord.value.victim == v)
  }

  /** The supervisor under any schedule: every iteration may fail, exit or crash anywhere, and is followed by a
      fresh process; between iterations any scopes may exit. */
  method RunFromAbsent(writes: nat -> WriteReply, units: nat -> UnitReply, recordReads: nat -> bool, ticks: seq<Tick>,
                       ghost exits: nat -> set<Victim>) returns (rt: Runtime)
    ensures fresh(rt) && rt.Safe() && RunSafe(rt)
  {
    rt := new Runtime(writes, units, recordReads);
    var main := new Loop(rt);
    var sup := new PressureSupervisor();
    for i := 0 to |ticks|
      invariant rt.Safe() && sup.Valid() && fresh(sup) && fresh(rt) && main.rt == rt
    {
      rt.ScopesExit(exits(i));
      var ended, results;
      ghost var decided;
      ended, decided, results := main.Iterate(sup, ticks[i]);
      if !ended.Continues? {
        sup := new PressureSupervisor();
      }
    }
    SafeMeans(rt);
  }

  lemma SafeMeans(rt: Runtime)
    requires rt.Safe()
    ensures RunSafe(rt)
  {
    if rt.emergency.Some? {
      assert OneVictim(rt.log, rt.emergency.value.victim);
    } else {
      assert OneVictim(rt.log, Victim("", ""));
    }
    if rt.frozenRecord.Some? {
      assert rt.held == {} || rt.held == {rt.frozenRecord.value.victim};
    }
  }

  /** At the last representable millisecond since start, the loop decides the KILL of a victim terminated only a
      millisecond before: the deadline it rebuilds saturates.  The executor, which measures the wall clock, turns
      the KILL down, and the record stays. */
  method KillDecidedWithinGrace() returns (rt: Runtime, now: u64, results: seq<(Action, Outcome)>)
    ensures fresh(rt) && rt.Safe() && KillTooEarly(rt.emergency, now)
    ensures rt.emergency.value.termAt == Some(1) && now == 2
    ensures exists i :: 0 <= i < |results| && results[i].0.KillDiscardable? && TurnedDown(results[i].1)
  {
    rt := new Runtime(n => Landed, n => Done, n => true);
    var termed := rt.ExecuteTerm(Some(Victim("scope", "instance")), 1);
    now := 2;
    assert termed.Succeeded? && KillTooEarly(rt.emergency, now);
    var main := new Loop(rt);
    var sup := new PressureSupervisor();
    var tick := Tick(Sample(0, 2, 0.0, 0, U64_MAX), now, None, n => OtherDone);
    var ended;
    ghost var decided;
    ended, decided, results := main.Iterate(sup, tick);
    assert sup.state.Emergency? by {
      assert sup.history == [tick.sample];
    }
    assert KillDiscardable in decided.value;
    ghost var i :| 0 <= i < |decided.value| && decided.value[i] == KillDiscardable;
    assert results[i].0.KillDiscardable?;
  }
}
