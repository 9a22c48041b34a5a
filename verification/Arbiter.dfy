/** The broker's arbiter: lease service, counterfactual revert, pressure rebalancing and round robin, and its
    composition with the slice map and the lease book. */
module Arbiter {
  import opened Bytes
  import opened Arithmetic
  import opened Slices
  import opened ArbiterLaw

  datatype TenantView = TenantView(id: TenantId, psi: real, slices: nat)

  datatype Action =
    | AssignFree(slice: SliceId, to: TenantId)
    | MoveSlice(slice: SliceId, from: TenantId, to: TenantId)
    | RevertMove(slice: SliceId, from: TenantId, to: TenantId)
    | RevokeForLease(slice: SliceId, from: TenantId)
    | GrantLease(holder: TenantId, slices: seq<SliceId>)

  datatype ArbiterError = LeaseConflict

  // ---------------------------------------------------------------- views of the slice list

  /** Each slice is listed once and carries a tenant exactly while in use or draining: what every reachable slice
      map, and every part of one, satisfies. */
  ghost predicate WellFormed(slices: seq<Slice>) {
    && (forall i, j :: 0 <= i < j < |slices| ==> slices[i].id != slices[j].id)
    && (forall i :: 0 <= i < |slices| ==> TenantFits(slices[i]))
  }

  /** The list holds a slice with this id, state and tenant. */
  ghost predicate Has(slices: seq<Slice>, id: SliceId, state: SliceState, tenant: Option<TenantId>) {
    exists i :: 0 <= i < |slices| && slices[i].id == id && slices[i].state == state && slices[i].tenant == tenant
  }

  /** The ids of the slices in a given state, in list order. */
  function IdsIn(slices: seq<Slice>, state: SliceState): (ids: seq<SliceId>) {
    if slices == [] then []
    else
      var s := slices[|slices| - 1];
      IdsIn(slices[..|slices| - 1], state) + if s.state == state then [s.id] else []
  }

  ghost predicate NoRepeats(ids: seq<SliceId>) {
    forall i, j :: 0 <= i < j < |ids| ==> ids[i] != ids[j]
  }

  /** They are exactly the ids of those slices, once each. */
  lemma IdsInMeans(slices: seq<Slice>, state: SliceState)
    ensures forall id :: id in IdsIn(slices, state) <==>
              exists i :: 0 <= i < |slices| && slices[i].id == id && slices[i].state == state
    ensures WellFormed(slices) ==> NoRepeats(IdsIn(slices, state))
    ensures |IdsIn(slices, state)| <= |slices|
  {
    forall id
      ensures id in IdsIn(slices, state) <==>
                exists i :: 0 <= i < |slices| && slices[i].id == id && slices[i].state == state
    {
      IdIn(slices, state, id);
    }
    IdsInShort(slices, state);
    if WellFormed(slices) {
      IdsInOnce(slices, state);
    }
  }

  lemma {:induction false} IdIn(slices: seq<Slice>, state: SliceState, id: SliceId)
    ensures id in IdsIn(slices, state) <==>
              exists i :: 0 <= i < |slices| && slices[i].id == id && slices[i].state == state
  {
    if slices != [] {
      var n := |slices| - 1;
      IdIn(slices[..n], state, id);
      if id in IdsIn(slices[..n], state) {
        var i :| 0 <= i < n && slices[..n][i].id == id && slices[..n][i].state == state;
        assert slices[i].id == id && slices[i].state == state;
      }
      if i :| 0 <= i < n && slices[i].id == id && slices[i].state == state {
        assert slices[..n][i].id == id && slices[..n][i].state == state;
      }
    }
  }

  lemma {:induction false} IdsInShort(slices: seq<Slice>, state: SliceState)
    ensures |IdsIn(slices, state)| <= |slices|
  {
    if slices != [] {
      IdsInShort(slices[..|slices| - 1], state);
    }
  }

  lemma {:induction false} IdsInOnce(slices: seq<Slice>, state: SliceState)
    requires WellFormed(slices)
    ensures NoRepeats(IdsIn(slices, state))
  {
    if slices != [] {
      var n := |slices| - 1;
      var ids := IdsIn(slices[..n], state);
      IdsInOnce(slices[..n], state);
      forall k | 0 <= k < |ids| ensures ids[k] != slices[n].id {
        IdIn(slices[..n], state, ids[k]);
        var i :| 0 <= i < n && slices[..n][i].id == ids[k] && slices[..n][i].state == state;
        assert slices[i].id != slices[n].id;
      }
    }
  }

  lemma {:induction false} NoneIn(slices: seq<Slice>, state: SliceState)
    requires forall i :: 0 <= i < |slices| ==> slices[i].state != state
    ensures IdsIn(slices, state) == []
  {
    if slices != [] {
      NoneIn(slices[..|slices| - 1], state);
    }
  }

  // ---------------------------------------------------------------- pressure

  /** `owner_psi`: the pressure of the first view with this id. */
  function OwnerPsi(tenants: seq<TenantView>, id: TenantId): Option<real> {
    if tenants == [] then None
    else if tenants[0].id == id then Some(tenants[0].psi)
    else OwnerPsi(tenants[1..], id)
  }

  /** The most pressured view; the last one on ties. */
  function MostPressured(tenants: seq<TenantView>): (t: TenantView)
    requires tenants != []
    ensures t in tenants && forall u :: u in tenants ==> u.psi <= t.psi
  {
    var last := tenants[|tenants| - 1];
    assert tenants == tenants[..|tenants| - 1] + [last];
    if |tenants| == 1 then last
    else
      var best := MostPressured(tenants[..|tenants| - 1]);
      if best.psi <= last.psi then last else best
  }

  /** The least pressured view that could give a slice to someone else; the first one on ties. */
  function LeastPressuredDonor(tenants: seq<TenantView>, receiver: TenantId): (d: Option<TenantView>)
    ensures d.Some? ==> d.value in tenants && 1 <= d.value.slices && d.value.id != receiver
    ensures d.Some? ==> forall u :: u in tenants && 1 <= u.slices && u.id != receiver ==> d.value.psi <= u.psi
    ensures d.None? ==> forall u :: u in tenants ==> u.slices == 0 || u.id == receiver
  {
    if tenants == [] then None
    else
      var last := tenants[|tenants| - 1];
      assert tenants == tenants[..|tenants| - 1] + [last];
      var best := LeastPressuredDonor(tenants[..|tenants| - 1], receiver);
      if last.slices >= 1 && last.id != receiver && (best.None? || last.psi < best.value.psi) then Some(last) else best
  }

  /** `pressure_pair`: receiver, donor and differential. */
  function PressurePair(tenants: seq<TenantView>): (r: Option<(TenantView, TenantView, real)>)
    ensures r.Some? ==>
              && r.value.0 in tenants && r.value.1 in tenants && r.value.0.id != r.value.1.id && 1 <= r.value.1.slices
              && (forall u :: u in tenants ==> u.psi <= r.value.0.psi)
              && (forall u :: u in tenants && 1 <= u.slices && u.id != r.value.0.id ==> r.value.1.psi <= u.psi)
              && r.value.2 == r.value.0.psi - r.value.1.psi
  {
    if tenants == [] then None
    else
      var receiver := MostPressured(tenants);
      var donor := LeastPressuredDonor(tenants, receiver.id);
      if donor.None? then None else Some((receiver, donor.value, receiver.psi - donor.value.psi))
  }

  predicate ActiveOf(s: Slice, owner: TenantId) {
    s.state.Active? && s.tenant == Some(owner)
  }

  /** `first_active_of`. */
  method FirstActiveOf(slices: seq<Slice>, owner: TenantId) returns (r: Option<SliceId>)
    ensures r.Some? ==> Has(slices, r.value, Active, Some(owner))
    ensures r.Some? ==>
              exists i ::
                && 0 <= i < |slices| && slices[i].id == r.value
                && forall k :: 0 <= k < i ==> !ActiveOf(slices[k], owner)
    ensures r.None? ==> forall i :: 0 <= i < |slices| ==> !ActiveOf(slices[i], owner)
  {
    for i := 0 to |slices|
      invariant forall k :: 0 <= k < i ==> !ActiveOf(slices[k], owner)
    {
      if ActiveOf(slices[i], owner) {
        return Some(slices[i].id);
      }
    }
    return None;
  }

  // ---------------------------------------------------------------- lease service

  /** A revocation candidate: slice, owner, owner's pressure (zero if unknown). */
  datatype Candidate = Candidate(slice: SliceId, owner: TenantId, psi: real)

  /** Least pressured first, then lowest id. */
  predicate Before(a: Candidate, b: Candidate) {
    a.psi < b.psi || (a.psi == b.psi && a.slice < b.slice)
  }

  function CandidateOf(tenants: seq<TenantView>, s: Slice): Candidate
    requires s.tenant.Some?
  {
    var psi := OwnerPsi(tenants, s.tenant.value);
    Candidate(s.id, s.tenant.value, if psi.Some? then psi.value else 0.0)
  }

  ghost predicate Ordered(cs: seq<Candidate>) {
    forall i, j :: 0 <= i < j < |cs| ==> Before(cs[i], cs[j])
  }

  function Insert(cs: seq<Candidate>, c: Candidate): (r: seq<Candidate>)
    ensures |r| == |cs| + 1 && forall x :: x in r <==> x in cs || x == c
  {
    if cs == [] || Before(cs[|cs| - 1], c) then cs + [c]
    else
      assert cs == cs[..|cs| - 1] + [cs[|cs| - 1]];
      Insert(cs[..|cs| - 1], c) + [cs[|cs| - 1]]
  }

  lemma {:induction false} InsertOrdered(cs: seq<Candidate>, c: Candidate)
    requires Ordered(cs) && forall i :: 0 <= i < |cs| ==> cs[i].slice != c.slice
    ensures Ordered(Insert(cs, c))
  {
    if cs != [] && !Before(cs[|cs| - 1], c) {
      var n := |cs| - 1;
      InsertOrdered(cs[..n], c);
      var r := Insert(cs[..n], c);
      forall i | 0 <= i < |r| ensures Before(r[i], cs[n]) {
        assert r[i] in r;
      }
    }
  }

  /** Every active slice with an owner, least pressured first. */
  function ByPressure(tenants: seq<TenantView>, slices: seq<Slice>): (cs: seq<Candidate>)
    ensures |cs| <= |slices|
  {
    if slices == [] then []
    else
      var rest, s := ByPressure(tenants, slices[..|slices| - 1]), slices[|slices| - 1];
      if s.state.Active? && s.tenant.Some? then Insert(rest, CandidateOf(tenants, s)) else rest
  }

  ghost predicate IsCandidate(tenants: seq<TenantView>, slices: seq<Slice>, i: int, c: Candidate) {
    0 <= i < |slices| && slices[i].state.Active? && slices[i].tenant.Some? && c == CandidateOf(tenants, slices[i])
  }

  lemma {:induction false} ByPressureMeans(tenants: seq<TenantView>, slices: seq<Slice>)
    requires WellFormed(slices)
    ensures Ordered(ByPressure(tenants, slices))
    ensures forall c :: c in ByPressure(tenants, slices) <==> exists i :: IsCandidate(tenants, slices, i, c)
  {
    if slices != [] {
      var n := |slices| - 1;
      var rest, s := slices[..n], slices[n];
      ByPressureMeans(tenants, rest);
      var cs := ByPressure(tenants, rest);
      forall c ensures c in cs <==> exists i :: i < n && IsCandidate(tenants, slices, i, c) {
        if i :| i < n && IsCandidate(tenants, slices, i, c) {
          assert IsCandidate(tenants, rest, i, c);
        }
        if i :| IsCandidate(tenants, rest, i, c) {
          assert i < n && IsCandidate(tenants, slices, i, c);
        }
      }
      forall c ensures c in ByPressure(tenants, slices) <==> exists i :: IsCandidate(tenants, slices, i, c) {
        if c !in cs && c in ByPressure(tenants, slices) {
          assert IsCandidate(tenants, slices, n, c);
        }
      }
      if s.state.Active? && s.tenant.Some? {
        forall k | 0 <= k < |cs| ensures cs[k].slice != s.id {
          assert cs[k] in cs;
          var i :| i < n && IsCandidate(tenants, slices, i, cs[k]);
        }
        InsertOrdered(cs, CandidateOf(tenants, s));
      }
    }
  }

  /** What a lease tick may answer for a well-formed list. */
  ghost predicate LeaseAnswer(tenants: seq<TenantView>, slices: seq<Slice>, holder: TenantId, bytes: nat,
                              r: Result<seq<Action>, ArbiterError>)
  {
    var len := if slices == [] then 0 else slices[0].len;
    if len == 0 || bytes == 0 then r == Ok([])
    else if exists i :: 0 <= i < |slices| && slices[i].state.Leased? then r == Err(LeaseConflict)
    else
      var need, free := CeilQuot(bytes, len), IdsIn(slices, Free);
      r.Ok? && if need <= |free| then r.value == [GrantLease(holder, free[..need])]
               else RevokesLeastPressured(tenants, slices, need - |free|, r.value)
  }

  /** Revokes as many active slices as are missing, or all of them, least pressured owners first. */
  predicate RevokesLeastPressured(tenants: seq<TenantView>, slices: seq<Slice>, deficit: nat, actions: seq<Action>) {
    var cs := ByPressure(tenants, slices);
    && |actions| == Min(deficit, |cs|)
    && forall i :: 0 <= i < |actions| ==> actions[i] == RevokeForLease(cs[i].slice, cs[i].owner)
  }

  method LeaseTick(tenants: seq<TenantView>, slices: seq<Slice>, holder: TenantId, bytes: nat)
    returns (r: Result<seq<Action>, ArbiterError>)
    requires WellFormed(slices)
    ensures LeaseAnswer(tenants, slices, holder, bytes, r)
  {
    var len := if slices == [] then 0 else slices[0].len;
    if len == 0 || bytes == 0 {
      return Ok([]);
    }
    var need := CeilQuot(bytes, len);
    for i := 0 to |slices|
      invariant forall k :: 0 <= k < i ==> !slices[k].state.Leased?
    {
      // A leased slice records no tenant, so it is never the holder's own.
      if slices[i].state == Leased && slices[i].tenant != Some(holder) {
        return Err(LeaseConflict);
      }
    }
    var leased, free := IdsIn(slices, Leased), IdsIn(slices, Free);
    NoneIn(slices, Leased);
    var available := |leased| + |free|;
    if available < need {
      var active := ByPressure(tenants, slices);
      var n := Min(need - available, |active|);
      var actions := seq(n, i requires 0 <= i < |active| => RevokeForLease(active[i].slice, active[i].owner));
      return Ok(actions);
    }
    assert leased + free == free;
    return Ok([GrantLease(holder, (leased + free)[..need])]);
  }

  // ---------------------------------------------------------------- the arbiter

  function SlicesOf(a: Action): seq<SliceId> {
    match a
    case GrantLease(_, ids) => ids
    case _ => [a.slice]
  }

  /** Applied alone, the action is an enabled transition of every slice it names.  (A revert is not checked against
      the current owner, so it carries no such promise.) */
  ghost predicate Enabled(slices: seq<Slice>, a: Action) {
    match a
    case AssignFree(s, _) => Has(slices, s, Free, None)
    case MoveSlice(s, from, _) => Has(slices, s, Active, Some(from))
    case RevokeForLease(s, from) => Has(slices, s, Active, Some(from))
    case GrantLease(_, ids) => NoRepeats(ids) && forall i :: 0 <= i < |ids| ==> Has(slices, ids[i], Free, None)
    case RevertMove(_, _, _) => true
  }

  /** Every action but a revert is enabled, and no two of them name the same slice. */
  ghost predicate Compatible(slices: seq<Slice>, actions: seq<Action>) {
    && (forall i :: 0 <= i < |actions| ==> Enabled(slices, actions[i]))
    && (forall i, j :: 0 <= i < j < |actions| && !actions[i].RevertMove? && !actions[j].RevertMove? ==>
          Apart(actions[i], actions[j]))
  }

  /** The actions name no slice in common. */
  ghost predicate Apart(a: Action, b: Action) {
    forall x :: x in SlicesOf(a) ==> x !in SlicesOf(b)
  }

  predicate IsShift(a: Action) {
    a.MoveSlice? || a.RevertMove?
  }

  /** The actions of a non-lease tick: at most one movement, then one assignment per free slice, in list order. */
  ghost predicate TickShape(actions: seq<Action>, slices: seq<Slice>, shift: Option<Action>, given: seq<TenantId>) {
    var free := IdsIn(slices, Free);
    && (shift.Some? ==> IsShift(shift.value))
    && (given != [] ==> |given| == |free|)
    && actions == (if shift.Some? then [shift.value] else []) + Assignments(free, given)
  }

  function Assignments(free: seq<SliceId>, given: seq<TenantId>): (r: seq<Action>)
    ensures |r| == Min(|free|, |given|)
  {
    seq(Min(|free|, |given|), i requires 0 <= i < Min(|free|, |given|) => AssignFree(free[i], given[i]))
  }

  function TenantIds(tenants: seq<TenantView>): (ids: seq<TenantId>)
    ensures |ids| == |tenants|
  {
    seq(|tenants|, i requires 0 <= i < |tenants| => tenants[i].id)
  }

  /** The latest move is to be undone: still within its window, its donor is now worse off than the factor and the
      floor allow. */
  ghost predicate RevertDue(cfg: Config, log: seq<Entry>, now: nat, tenants: seq<TenantView>) {
    var open := OpenMove(cfg, log);
    && open.Some? && SatSub(now, open.value.at) <= cfg.cfWindow
    && var psi := OwnerPsi(tenants, open.value.from);
       psi.Some? && psi.value > cfg.cfFactor * open.value.fromPsi && psi.value > cfg.psiFloor
  }

  /** A slice is to move: nothing is free, the differential has held for the streak, no cooldown runs, and the donor
      has an active slice it may lose. */
  ghost predicate MoveDue(cfg: Config, log: seq<Entry>, now: nat, tenants: seq<TenantView>, slices: seq<Slice>) {
    var pair, cooldown := PressurePair(tenants), CooldownEnd(cfg, log);
    && pair.Some? && IdsIn(slices, Free) == []
    && cfg.streak <= (if pair.value.2 > cfg.deltaPsi then StreakOf(log) + 1 else 0)
    && !(cooldown.Some? && now < cooldown.value)
    && MayGive(cfg, pair.value.1, slices)
  }

  /** One more entry, a movement exactly when one is due, from the least to the most pressured tenant.  What is due
      depends on the history and on what the tick is shown, and on nothing else. */
  ghost predicate Decided(cfg: Config, before: seq<Entry>, after: seq<Entry>, now: nat, tenants: seq<TenantView>,
                          slices: seq<Slice>, shift: Option<Action>)
  {
    && |after| == |before| + 1 && after[..|before|] == before && after[|before|].now == now
    && EntryOf(cfg, after[|before|], tenants) && ShiftMatches(after[|before|].shift, shift)
    && (shift.Some? ==> IsShift(shift.value))
    && (shift.Some? && shift.value.RevertMove? <==> RevertDue(cfg, before, now, tenants))
    && (shift.Some? && shift.value.MoveSlice? <==>
          !RevertDue(cfg, before, now, tenants) && MoveDue(cfg, before, now, tenants, slices))
    && (shift.Some? && shift.value.MoveSlice? ==> FromLeastToMost(tenants, shift.value.from, shift.value.to))
  }

  ghost predicate MayGive(cfg: Config, donor: TenantView, slices: seq<Slice>) {
    && (donor.psi <= cfg.psiFloor || 2 <= donor.slices)
    && exists i :: 0 <= i < |slices| && ActiveOf(slices[i], donor.id)
  }

  class PressureArbiter {
    const cfg: Config
    var streak: nat
    var lastMove: Option<MoveRecord>
    var cooldownUntil: Option<nat>
    var rrCursor: nat
    /** Every non-lease tick so far, and the tenants each of them was shown. */
    ghost var log: seq<Entry>
    ghost var seen: seq<seq<TenantView>>
    /** Every free slice handed out so far. */
    ghost var handouts: seq<Handout>

    constructor (cfg: Config)
      ensures Valid() && this.cfg == cfg && log == [] && seen == [] && handouts == [] && rrCursor == 0
    {
      this.cfg, streak, lastMove, cooldownUntil, rrCursor := cfg, 0, None, None, 0;
      log, seen, handouts := [], [], [];
    }

    /** The movement and fairness laws hold of the whole run. */
    ghost predicate Valid()
      reads this
    {
      MovesLawful() && LogsInputs(cfg, log, seen) && HandoutsLawful(handouts, rrCursor)
    }

    ghost predicate MovesLawful()
      reads this`log, this`streak, this`lastMove, this`cooldownUntil
    {
      Lawful(cfg, log) && Summary(cfg, log, streak, lastMove, cooldownUntil)
    }

    /** One tick.  A lease tick leaves the arbiter alone; any other tick records one lawful entry, emits at most one
        movement, and hands every free slice to the next tenant in turn. */
    method Tick(now: nat, tenants: seq<TenantView>, slices: seq<Slice>, pendingLease: Option<(TenantId, nat)>)
      returns (r: Result<seq<Action>, ArbiterError>, ghost shift: Option<Action>, ghost given: seq<TenantId>)
      requires Valid() && WellFormed(slices)
      modifies this
      ensures Valid()
      ensures r.Ok? ==> Compatible(slices, r.value)
      ensures pendingLease.Some? ==>
                && LeaseAnswer(tenants, slices, pendingLease.value.0, pendingLease.value.1, r) && shift.None?
                && given == []
                && streak == old(streak) && lastMove == old(lastMove) && cooldownUntil == old(cooldownUntil)
                && rrCursor == old(rrCursor) && log == old(log) && seen == old(seen) && handouts == old(handouts)
      ensures pendingLease.None? ==> r.Ok? && TickShape(r.value, slices, shift, given)
      ensures pendingLease.None? ==> Decided(cfg, old(log), log, now, tenants, slices, shift)
      ensures pendingLease.None? ==> seen == old(seen) + [tenants] && GivenOut(old(handouts), tenants, slices, given)
    {
      shift, given := None, [];
      if pendingLease.Some? {
        r := LeaseTick(tenants, slices, pendingLease.value.0, pendingLease.value.1);
        if r.Ok? {
          LeaseCompatible(tenants, slices, pendingLease.value.0, pendingLease.value.1, r);
        }
      } else {
        var actions;
        actions, shift, given := OrdinaryTick(now, tenants, slices);
        r := Ok(actions);
      }
    }

    /** Every free slice went to the next tenant in turn. */
    ghost predicate GivenOut(before: seq<Handout>, tenants: seq<TenantView>, slices: seq<Slice>, given: seq<TenantId>)
      reads this`handouts
    {
      && Handed(before, handouts, TenantIds(tenants), given)
      && |given| == (if tenants == [] then 0 else |IdsIn(slices, Free)|)
    }

    /** Steps two to five. */
    method OrdinaryTick(now: nat, tenants: seq<TenantView>, slices: seq<Slice>)
      returns (actions: seq<Action>, ghost shift: Option<Action>, ghost given: seq<TenantId>)
      requires Valid() && WellFormed(slices)
      modifies this
      ensures Valid() && Compatible(slices, actions) && TickShape(actions, slices, shift, given)
      ensures Decided(cfg, old(log), log, now, tenants, slices, shift)
      ensures seen == old(seen) + [tenants] && GivenOut(old(handouts), tenants, slices, given)
    {
      var move := Rebalance(now, tenants, slices);
      ghost var after := log;
      OneMoreInput(cfg, old(log), after, seen, tenants);
      seen := seen + [tenants];
      shift := move;
      var handed := HandOut(tenants, slices);
      given := handed;
      actions := (if move.Some? then [move.value] else []) + Assignments(IdsIn(slices, Free), handed);
      TickCompatible(slices, actions, move, handed);
      assert log == after;
    }

    /** Steps two to four: revert the last move if its donor got worse, otherwise move a slice if the differential
        has held long enough. */
    method Rebalance(now: nat, tenants: seq<TenantView>, slices: seq<Slice>) returns (shift: Option<Action>)
      requires MovesLawful()
      modifies this`streak, this`lastMove, this`cooldownUntil, this`log
      ensures MovesLawful() && Decided(cfg, old(log), log, now, tenants, slices, shift)
      ensures shift.Some? ==> Enabled(slices, shift.value)
      ensures shift.Some? && shift.value.MoveSlice? ==> IdsIn(slices, Free) == []
    {
      var pair := PressurePair(tenants);
      var over := pair.Some? && pair.value.2 > cfg.deltaPsi;
      shift := Counterfactual(now, over, tenants);
      if shift.None? {
        shift := MoveIfDue(now, over, pair, tenants, slices);
      }
    }

    /** Steps three and four: a move, or a quiet tick. */
    method MoveIfDue(now: nat, over: bool, pair: Option<(TenantView, TenantView, real)>, ghost tenants: seq<TenantView>,
                     slices: seq<Slice>)
      returns (shift: Option<Action>)
      requires MovesLawful() && pair == PressurePair(tenants) && over == (pair.Some? && pair.value.2 > cfg.deltaPsi)
      modifies this`streak, this`lastMove, this`cooldownUntil, this`log
      ensures MovesLawful()
      ensures |log| == |old(log)| + 1 && log[..|old(log)|] == old(log) && log[|old(log)|].now == now
      ensures ShiftMatches(log[|old(log)|].shift, shift) && EntryOf(cfg, log[|old(log)|], tenants)
      ensures shift.Some? <==> MoveDue(cfg, old(log), now, tenants, slices)
      ensures shift.Some? ==>
                && shift.value.MoveSlice? && Enabled(slices, shift.value) && IdsIn(slices, Free) == []
                && FromLeastToMost(tenants, shift.value.from, shift.value.to)
    {
      shift := None;
      var kept := if lastMove.Some? && SatSub(now, lastMove.value.at) > cfg.cfWindow then None else lastMove;
      var grown := if over then streak + 1 else 0;
      var cooling := cooldownUntil.Some? && now < cooldownUntil.value;
      if grown >= cfg.streak && !cooling && IdsIn(slices, Free) == [] && pair.Some? {
        shift := Differential(now, over, pair.value.0, pair.value.1, slices);
      }
      if shift.None? {
        QuietTick(cfg, log, streak, lastMove, cooldownUntil, now, over);
        streak, lastMove := grown, kept;
        log := log + [Entry(now, over, None)];
      }
    }

    /** The counterfactual step: undo the latest move if its donor got worse. */
    method Counterfactual(now: nat, over: bool, tenants: seq<TenantView>) returns (shift: Option<Action>)
      requires MovesLawful()
      modifies this`streak, this`lastMove, this`cooldownUntil, this`log
      ensures MovesLawful() && (shift.Some? <==> RevertDue(cfg, old(log), now, tenants))
      ensures shift.None? ==>
                && streak == old(streak) && lastMove == old(lastMove) && cooldownUntil == old(cooldownUntil)
                && log == old(log)
      ensures shift.Some? ==>
                && shift.value.RevertMove? && lastMove.None? && |log| == |old(log)| + 1 && log[..|old(log)|] == old(log)
                && log[|old(log)|].now == now && log[|old(log)|].over == over
                && ShiftMatches(log[|old(log)|].shift, shift) && ShiftOf(log[|old(log)|].shift, tenants)
    {
      shift := None;
      if lastMove.Some? && SatSub(now, lastMove.value.at) <= cfg.cfWindow {
        var rec := lastMove.value;
        var psi := OwnerPsi(tenants, rec.from);
        if psi.Some? && psi.value > cfg.cfFactor * rec.fromPsi && psi.value > cfg.psiFloor {
          RevertTick(cfg, log, streak, rec, cooldownUntil, now, over, psi.value);
          lastMove, cooldownUntil, streak := None, Some(now + cfg.cfCooldown), if over then 1 else 0;
          log := log + [Entry(now, over, Some(Reverted(rec.slice, rec.to, rec.from, psi.value)))];
          shift := Some(RevertMove(rec.slice, rec.to, rec.from));
        }
      }
    }

    /** The move itself, unless it would take the last slice of a donor under pressure. */
    method Differential(now: nat, over: bool, receiver: TenantView, donor: TenantView, slices: seq<Slice>)
      returns (shift: Option<Action>)
      requires MovesLawful() && donor.id != receiver.id && IdsIn(slices, Free) == []
      requires cfg.streak <= (if over then streak + 1 else 0) && (cooldownUntil.Some? ==> cooldownUntil.value <= now)
      modifies this`streak, this`lastMove, this`cooldownUntil, this`log
      ensures MovesLawful()
      ensures shift.Some? <==> MayGive(cfg, donor, slices)
      ensures shift.None? ==>
                && streak == old(streak) && lastMove == old(lastMove) && cooldownUntil == old(cooldownUntil)
                && log == old(log)
      ensures shift.Some? ==>
                && shift.value.MoveSlice? && Enabled(slices, shift.value) && shift.value.from == donor.id
                && shift.value.to == receiver.id
                && var moved := Moved(shift.value.slice, donor.id, receiver.id, donor.psi, donor.slices);
                   log == old(log) + [Entry(now, over, Some(moved))]
    {
      if donor.psi > cfg.psiFloor && donor.slices <= 1 {
        return None;
      }
      var slice := FirstActiveOf(slices, donor.id);
      if slice.None? {
        return None;
      }
      var s := Moved(slice.value, donor.id, receiver.id, donor.psi, donor.slices);
      MoveTick(cfg, log, streak, lastMove, cooldownUntil, now, over, s);
      lastMove := Some(MoveRecord(slice.value, donor.id, receiver.id, now, donor.psi));
      cooldownUntil, streak := Some(now + cfg.cooldown), 0;
      log := log + [Entry(now, over, Some(s))];
      return Some(MoveSlice(slice.value, donor.id, receiver.id));
    }

    /** Step five: the tenants that the free slices go to, in turn; the cursor wraps at the machine word. */
    method HandOut(tenants: seq<TenantView>, slices: seq<Slice>) returns (given: seq<TenantId>)
      requires HandoutsLawful(handouts, rrCursor)
      modifies this`rrCursor, this`handouts
      ensures HandoutsLawful(handouts, rrCursor) && Handed(old(handouts), handouts, TenantIds(tenants), given)
      ensures |given| == if tenants == [] then 0 else |IdsIn(slices, Free)|
    {
      given := [];
      if tenants == [] {
        return;
      }
      var free := IdsIn(slices, Free);
      while |given| < |free|
        invariant |given| <= |free| && HandoutsLawful(handouts, rrCursor)
        invariant Handed(old(handouts), handouts, TenantIds(tenants), given)
      {
        var to := tenants[Wrap(rrCursor, |tenants|)].id;
        HandoutStep(handouts, rrCursor, TenantIds(tenants));
        HandedStep(old(handouts), handouts, TenantIds(tenants), given, rrCursor, to);
        given := given + [to];
        handouts := handouts + [Handout(TenantIds(tenants), rrCursor, to)];
        rrCursor := NextCursor(rrCursor);
      }
    }
  }

  /** The tenants show a differential over the threshold. */
  ghost predicate OverDelta(cfg: Config, tenants: seq<TenantView>) {
    PressurePair(tenants).Some? && PressurePair(tenants).value.2 > cfg.deltaPsi
  }

  /** What is recorded of a movement is what the tenants show: the donor of the pressure pair with its pressure and
      slice count, or the pressure of the owner a slice goes back to. */
  ghost predicate ShiftOf(s: Option<Shift>, tenants: seq<TenantView>) {
    match s
    case None => true
    case Some(Moved(_, from, to, donorPsi, donorSlices)) =>
      var pair := PressurePair(tenants);
      && pair.Some? && to == pair.value.0.id && from == pair.value.1.id
      && donorPsi == pair.value.1.psi && donorSlices == pair.value.1.slices
    case Some(Reverted(_, _, to, ownerPsi)) => OwnerPsi(tenants, to) == Some(ownerPsi)
  }

  /** An entry records its tick truly. */
  ghost predicate EntryOf(cfg: Config, e: Entry, tenants: seq<TenantView>) {
    (e.over <==> OverDelta(cfg, tenants)) && ShiftOf(e.shift, tenants)
  }

  ghost predicate LogsInputs(cfg: Config, log: seq<Entry>, seen: seq<seq<TenantView>>) {
    |seen| == |log| && forall i :: 0 <= i < |log| ==> EntryOf(cfg, log[i], seen[i])
  }

  lemma OneMoreInput(cfg: Config, before: seq<Entry>, after: seq<Entry>, seen: seq<seq<TenantView>>,
                     tenants: seq<TenantView>)
    requires LogsInputs(cfg, before, seen) && |after| == |before| + 1 && after[..|before|] == before
    requires EntryOf(cfg, after[|before|], tenants)
    ensures LogsInputs(cfg, after, seen + [tenants])
  {
    forall i | 0 <= i < |after| ensures EntryOf(cfg, after[i], (seen + [tenants])[i]) {
      if i < |before| {
        assert after[i] == after[..|before|][i] && EntryOf(cfg, before[i], seen[i]);
      }
    }
  }

  /** The movement law in terms of what the ticks were shown: a move comes at the end of a streak of ticks whose
      tenants were all over the threshold, and spares the last slice of a donor above the floor. */
  lemma MovesFollowPressure(cfg: Config, log: seq<Entry>, seen: seq<seq<TenantView>>, i: nat)
    requires Lawful(cfg, log) && LogsInputs(cfg, log, seen) && i < |log|
    requires log[i].shift.Some? && log[i].shift.value.Moved?
    ensures cfg.streak <= i + 1 && forall k :: i + 1 - cfg.streak <= k <= i ==> OverDelta(cfg, seen[k])
    ensures PressurePair(seen[i]).Some?
    ensures PressurePair(seen[i]).value.1.psi <= cfg.psiFloor || 2 <= PressurePair(seen[i]).value.1.slices
  {
    assert EntryLawful(cfg, log, i) && EntryOf(cfg, log[i], seen[i]);
    forall k | i + 1 - cfg.streak <= k <= i ensures OverDelta(cfg, seen[k]) {
      assert EntryOf(cfg, log[k], seen[k]);
    }
  }

  /** The revert law likewise: the owner it gives a slice back to was shown with a pressure past the factor of what
      the donor was shown with at the move, and past the floor. */
  lemma RevertsFollowPressure(cfg: Config, log: seq<Entry>, seen: seq<seq<TenantView>>, i: nat)
    requires Lawful(cfg, log) && LogsInputs(cfg, log, seen) && i < |log|
    requires log[i].shift.Some? && log[i].shift.value.Reverted?
    ensures exists j ::
              && 0 <= j < i && PressurePair(seen[j]).Some?
              && PressurePair(seen[j]).value.1.id == log[i].shift.value.to
              && OwnerPsi(seen[i], log[i].shift.value.to).Some?
              && OwnerPsi(seen[i], log[i].shift.value.to).value > cfg.cfFactor * PressurePair(seen[j]).value.1.psi
              && OwnerPsi(seen[i], log[i].shift.value.to).value > cfg.psiFloor
  {
    assert EntryLawful(cfg, log, i) && RevertLawful(cfg, log, i) && EntryOf(cfg, log[i], seen[i]);
    var j := LastShift(log[..i]).value;
    assert EntryOf(cfg, log[j], seen[j]);
  }

  /** The move goes from the least pressured tenant that can give to the most pressured one. */
  ghost predicate FromLeastToMost(tenants: seq<TenantView>, from: TenantId, to: TenantId) {
    var pair := PressurePair(tenants);
    pair.Some? && to == pair.value.0.id && from == pair.value.1.id
  }

  /** The history grows by exactly these handouts over this tenant list. */
  ghost predicate Handed(before: seq<Handout>, after: seq<Handout>, ids: seq<TenantId>, given: seq<TenantId>) {
    && |after| == |before| + |given| && after[..|before|] == before
    && forall j :: |before| <= j < |after| ==> after[j].ids == ids && after[j].to == given[j - |before|]
  }

  lemma HandedStep(before: seq<Handout>, after: seq<Handout>, ids: seq<TenantId>, given: seq<TenantId>, cursor: nat,
                   to: TenantId)
    requires Handed(before, after, ids, given)
    ensures Handed(before, after + [Handout(ids, cursor, to)], ids, given + [to])
  {
    var next := after + [Handout(ids, cursor, to)];
    assert next[..|before|] == after[..|before|];
    forall j | |before| <= j < |next| ensures next[j].ids == ids && next[j].to == (given + [to])[j - |before|] {
      if j < |after| {
        assert next[j] == after[j];
      }
    }
  }

  /** The recorded movement is the emitted action. */
  ghost predicate ShiftMatches(s: Option<Shift>, a: Option<Action>) {
    match s
    case None => a.None?
    case Some(Moved(slice, from, to, _, _)) => a == Some(MoveSlice(slice, from, to))
    case Some(Reverted(slice, from, to, _)) => a == Some(RevertMove(slice, from, to))
  }

  /** A free slice has no tenant. */
  lemma FreeHas(slices: seq<Slice>, k: nat)
    requires WellFormed(slices) && k < |IdsIn(slices, Free)|
    ensures Has(slices, IdsIn(slices, Free)[k], Free, None)
  {
    IdsInMeans(slices, Free);
    var id := IdsIn(slices, Free)[k];
    assert id in IdsIn(slices, Free);
    var i :| 0 <= i < |slices| && slices[i].id == id && slices[i].state == Free;
    assert TenantFits(slices[i]);
  }

  lemma LeaseCompatible(tenants: seq<TenantView>, slices: seq<Slice>, holder: TenantId, bytes: nat,
                        r: Result<seq<Action>, ArbiterError>)
    requires WellFormed(slices) && LeaseAnswer(tenants, slices, holder, bytes, r) && r.Ok?
    ensures Compatible(slices, r.value)
  {
    var len, free := if slices == [] then 0 else slices[0].len, IdsIn(slices, Free);
    if len != 0 && bytes != 0 {
      var need := CeilQuot(bytes, len);
      if need <= |free| {
        IdsInMeans(slices, Free);
        forall i | 0 <= i < need ensures Has(slices, free[i], Free, None) {
          FreeHas(slices, i);
        }
      } else {
        RevokeCompatible(tenants, slices, need - |free|, r.value);
      }
    }
  }

  lemma RevokeCompatible(tenants: seq<TenantView>, slices: seq<Slice>, deficit: nat, actions: seq<Action>)
    requires WellFormed(slices) && RevokesLeastPressured(tenants, slices, deficit, actions)
    ensures Compatible(slices, actions)
  {
    var cs := ByPressure(tenants, slices);
    ByPressureMeans(tenants, slices);
    forall k | 0 <= k < |actions| ensures Enabled(slices, actions[k]) {
      assert cs[k] in cs;
      var i :| IsCandidate(tenants, slices, i, cs[k]);
      assert slices[i].id == cs[k].slice && slices[i].tenant == Some(cs[k].owner);
    }
    forall i, j | 0 <= i < j < |actions| ensures Apart(actions[i], actions[j]) {
      assert Before(cs[i], cs[j]) && cs[i] in cs && cs[j] in cs;
      var a :| IsCandidate(tenants, slices, a, cs[i]);
      var b :| IsCandidate(tenants, slices, b, cs[j]);
      assert a != b;
    }
  }

  lemma TickCompatible(slices: seq<Slice>, actions: seq<Action>, shift: Option<Action>, given: seq<TenantId>)
    requires WellFormed(slices)
    requires shift.Some? ==>
               && IsShift(shift.value) && Enabled(slices, shift.value)
               && (shift.value.MoveSlice? ==> IdsIn(slices, Free) == [])
    requires actions == (if shift.Some? then [shift.value] else []) + Assignments(IdsIn(slices, Free), given)
    ensures Compatible(slices, actions)
  {
    var free := IdsIn(slices, Free);
    var d := if shift.Some? then 1 else 0;
    IdsInMeans(slices, Free);
    forall k | d <= k < |actions|
      ensures actions[k] == AssignFree(free[k - d], given[k - d]) && Enabled(slices, actions[k])
    {
      FreeHas(slices, k - d);
    }
    forall i, j | d <= i < j < |actions| ensures Apart(actions[i], actions[j]) {
      assert free[i - d] != free[j - d];
    }
  }
}
