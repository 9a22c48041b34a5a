/** The broker core: arbiter, slice map and lease book behind one event loop.  Its invariant ties the three together:
    the bytes of the leased slices are exactly the bytes of the active lease. */
module Broker {
  import opened Bytes
  import opened Arithmetic
  import opened Slices
  import opened ArbiterLaw
  import opened Arbiter
  import opened Lease

  // ---------------------------------------------------------------- what a tick is shown

  predicate IsVisible(s: Slice, present: set<TenantId>) {
    s.tenant.None? || s.tenant.value in present
  }

  /** The slices nobody owns or whose owner is connected, in map order. */
  function Visible(slices: seq<Slice>, present: set<TenantId>): (r: seq<Slice>) {
    if slices == [] then []
    else
      var n := |slices| - 1;
      Visible(slices[..n], present) + if IsVisible(slices[n], present) then [slices[n]] else []
  }

  /** Slices carry their own position and consistent tenancy. */
  ghost predicate Indexed(slices: seq<Slice>) {
    forall i :: 0 <= i < |slices| ==> slices[i].id == i && TenantFits(slices[i])
  }

  /** A list of slices taken from the map. */
  ghost predicate ViewOf(view: seq<Slice>, slices: seq<Slice>) {
    forall i :: 0 <= i < |view| ==> view[i].id < |slices| && slices[view[i].id] == view[i]
  }

  /** The visible part is a well-formed view that hides no free slice. */
  lemma {:induction false} VisibleIsView(slices: seq<Slice>, present: set<TenantId>)
    requires Indexed(slices)
    ensures ViewOf(Visible(slices, present), slices) && WellFormed(Visible(slices, present))
    ensures IdsIn(Visible(slices, present), Free) == IdsIn(slices, Free)
  {
    if slices != [] {
      var n := |slices| - 1;
      VisibleIsView(slices[..n], present);
      var before, after := Visible(slices[..n], present), Visible(slices, present);
      if IsVisible(slices[n], present) {
        OneMoreVisible(slices, before, n);
        assert after == before + [slices[n]] && after[..|after| - 1] == before;
      } else {
        assert !slices[n].state.Free?;
        assert after == before;
      }
    }
  }

  lemma OneMoreVisible(slices: seq<Slice>, before: seq<Slice>, n: nat)
    requires Indexed(slices) && n == |slices| - 1 && ViewOf(before, slices[..n]) && WellFormed(before)
    ensures ViewOf(before + [slices[n]], slices) && WellFormed(before + [slices[n]])
  {
    var after := before + [slices[n]];
    forall i | 0 <= i < |after|
      ensures after[i].id < |slices| && slices[after[i].id] == after[i] && (i < |before| ==> after[i].id < n)
    {
      if i < |before| {
        assert slices[..n][before[i].id] == before[i];
      }
    }
  }

  /** How many slices a tenant holds. */
  function Held(slices: seq<Slice>, id: TenantId): (n: nat)
    ensures n <= |slices|
  {
    if slices == [] then 0
    else Held(slices[..|slices| - 1], id) + if slices[|slices| - 1].tenant == Some(id) then 1 else 0
  }

  // ---------------------------------------------------------------- the leased slices

  ghost function LeasedSet(slices: seq<Slice>): set<nat> {
    set i: nat | i < |slices| && slices[i].state.Leased?
  }

  ghost function Members(ids: seq<SliceId>): set<SliceId> {
    set id | id in ids
  }

  /** A list without repeats has as many members as entries. */
  lemma {:induction false} DistinctCount(ids: seq<SliceId>)
    requires NoRepeats(ids)
    ensures |Members(ids)| == |ids|
  {
    if ids != [] {
      var n := |ids| - 1;
      DistinctCount(ids[..n]);
      assert ids == ids[..n] + [ids[n]];
      assert ids[n] !in ids[..n];
      assert Members(ids) == Members(ids[..n]) + {ids[n]};
    }
  }

  /** The slice has one of these ids and is otherwise the same slice, leased. */
  ghost predicate LeasedThese(before: seq<Slice>, after: seq<Slice>, ids: seq<SliceId>) {
    && |after| == |before|
    && forall x :: 0 <= x < |before| ==> after[x] == if x in ids then before[x].(state := Leased) else before[x]
  }

  lemma LeasedCount(before: seq<Slice>, after: seq<Slice>, ids: seq<SliceId>)
    requires LeasedSet(before) == {} && LeasedThese(before, after, ids) && NoRepeats(ids)
    requires forall i :: 0 <= i < |ids| ==> ids[i] < |before|
    ensures |LeasedSet(after)| == |ids|
  {
    forall x | x in LeasedSet(after) ensures x in ids {
      assert x !in LeasedSet(before);
    }
    assert LeasedSet(after) == Members(ids);
    DistinctCount(ids);
  }

  /** A request for `bytes` takes ceil(bytes / len) slices: enough, and no more than there are. */
  lemma GrantCovers(bytes: nat, len: nat, need: nat, total: nat)
    requires 0 < len && need == CeilQuot(bytes, len) && need <= total
    ensures bytes <= need * len <= total * len
  {
    CeilDiv(bytes, len);
    MulLe(need, total, len);
  }

  // ---------------------------------------------------------------- actions on the map

  /** The slices, and where each slice on its way to another tenant will go. */
  datatype Plan = Plan(slices: seq<Slice>, dest: map<SliceId, TenantId>)

  /** One assignment, movement, revert or revocation; nothing happens to a slice in the wrong state. */
  function Applied(p: Plan, a: Action): (r: Plan)
    requires !a.GrantLease?
    ensures |r.slices| == |p.slices|
  {
    if |p.slices| <= a.slice then p
    else
      var s := p.slices[a.slice];
      match a
      case AssignFree(_, to) =>
        if s.state.Free? then p.(slices := p.slices[a.slice := s.(state := Active, tenant := Some(to))]) else p
      case RevokeForLease(_, _) =>
        if s.state.Active? then p.(slices := p.slices[a.slice := s.(state := Draining)]) else p
      case _ =>
        if s.state.Active? then Plan(p.slices[a.slice := s.(state := Draining)], p.dest[a.slice := a.to]) else p
  }

  function AppliedAll(p: Plan, actions: seq<Action>): (r: Plan)
    requires forall i :: 0 <= i < |actions| ==> !actions[i].GrantLease?
    ensures |r.slices| == |p.slices|
    decreases |actions|
  {
    if actions == [] then p else AppliedAll(Applied(p, actions[0]), actions[1..])
  }

  /** Free slices handed out all become Active with their new tenant, and nothing else changes. */
  lemma {:induction false} HandedOut(p: Plan, free: seq<SliceId>, given: seq<TenantId>)
    requires |given| == |free| && NoRepeats(free)
    requires forall i :: 0 <= i < |free| ==> free[i] < |p.slices| && p.slices[free[i]].state.Free?
    ensures var r := AppliedAll(p, Assignments(free, given));
            && r.dest == p.dest
            && (forall i :: 0 <= i < |free| ==>
                  r.slices[free[i]] == p.slices[free[i]].(state := Active, tenant := Some(given[i])))
            && (forall x :: 0 <= x < |p.slices| && x !in free ==> r.slices[x] == p.slices[x])
    decreases |free|
  {
    if free != [] {
      var all := Assignments(free, given);
      assert all[1..] == Assignments(free[1..], given[1..]);
      var q := Applied(p, all[0]);
      HandedOut(q, free[1..], given[1..]);
      var r := AppliedAll(p, all);
      assert r == AppliedAll(q, Assignments(free[1..], given[1..]));
      assert free[0] !in free[1..];
      forall i | 0 <= i < |free|
        ensures r.slices[free[i]] == p.slices[free[i]].(state := Active, tenant := Some(given[i]))
      {
        if i > 0 {
          assert free[1..][i - 1] == free[i] && given[1..][i - 1] == given[i];
        }
      }
    }
  }

  /** The slices a list of single-slice actions names. */
  function Targets(actions: seq<Action>): (ids: seq<SliceId>)
    requires forall i :: 0 <= i < |actions| ==> !actions[i].GrantLease?
    ensures |ids| == |actions|
  {
    seq(|actions|, i requires 0 <= i < |actions| => actions[i].slice)
  }

  /** Revoked slices all start draining, with no new owner waiting, and nothing else changes. */
  lemma {:induction false} AllDrained(p: Plan, actions: seq<Action>)
    requires forall i :: 0 <= i < |actions| ==> actions[i].RevokeForLease?
    requires NoRepeats(Targets(actions))
    requires forall i :: 0 <= i < |actions| ==>
               actions[i].slice < |p.slices| && p.slices[actions[i].slice].state.Active?
    ensures var r := AppliedAll(p, actions);
            && r.dest == p.dest
            && (forall i :: 0 <= i < |actions| ==>
                  r.slices[actions[i].slice] == p.slices[actions[i].slice].(state := Draining))
            && (forall x :: 0 <= x < |p.slices| && x !in Targets(actions) ==> r.slices[x] == p.slices[x])
    decreases |actions|
  {
    if actions != [] {
      var ids, rest := Targets(actions), actions[1..];
      assert Targets(rest) == ids[1..];
      var q := Applied(p, actions[0]);
      forall i | 0 <= i < |rest| ensures rest[i].slice < |q.slices| && q.slices[rest[i].slice].state.Active? {
        assert rest[i] == actions[i + 1] && ids[0] != ids[i + 1];
      }
      AllDrained(q, rest);
      var r := AppliedAll(p, actions);
      forall i | 0 <= i < |actions|
        ensures r.slices[actions[i].slice] == p.slices[actions[i].slice].(state := Draining)
      {
        if i > 0 {
          assert rest[i - 1] == actions[i];
        } else {
          assert ids[0] !in Targets(rest);
        }
      }
      forall x | 0 <= x < |p.slices| && x !in ids ensures r.slices[x] == p.slices[x] {
        assert x != ids[0] && x !in Targets(rest);
      }
    }
  }

  // ---------------------------------------------------------------- leasing and returning slices

  /** Leases every slice of a grant, or undoes the part already leased and leaves the map as it was. */
  method LeaseAll(m: SliceMap, ids: seq<SliceId>) returns (ok: bool)
    requires m.Valid()
    modifies m
    ensures m.Valid()
    ensures ok <==> Applies(old(m.slices), ids)
    ensures ok ==> LeasedThese(old(m.slices), m.slices, ids)
    ensures !ok ==> m.slices == old(m.slices)
  {
    var n := 0;
    while n < |ids|
      invariant 0 <= n <= |ids| && m.Valid()
      invariant Applies(old(m.slices), ids[..n]) && LeasedThese(old(m.slices), m.slices, ids[..n])
    {
      assert ids[..n + 1] == ids[..n] + [ids[n]];
      var r := m.Lease(ids[n]);
      if r.Err? {
        CannotLease(old(m.slices), m.slices, ids, n);
        UnleaseAll(m, ids[..n], old(m.slices));
        return false;
      }
      n := n + 1;
    }
    assert ids[..n] == ids;
    return true;
  }

  /** All these slices are distinct and free. */
  ghost predicate Applies(slices: seq<Slice>, ids: seq<SliceId>) {
    NoRepeats(ids) && forall i :: 0 <= i < |ids| ==> ids[i] < |slices| && slices[ids[i]].state.Free?
  }

  /** A slice that cannot be leased is missing, was not free, or has been leased just before. */
  lemma CannotLease(before: seq<Slice>, now: seq<Slice>, ids: seq<SliceId>, n: nat)
    requires n < |ids| && LeasedThese(before, now, ids[..n]) && !(ids[n] < |now| && now[ids[n]].state.Free?)
    ensures !Applies(before, ids)
  {
    if ids[n] in ids[..n] {
      var k :| 0 <= k < n && ids[k] == ids[n];
      assert !NoRepeats(ids);
    }
  }

  /** The rollback: slices that were free are free again. */
  method UnleaseAll(m: SliceMap, ids: seq<SliceId>, ghost before: seq<Slice>)
    requires m.Valid() && Applies(before, ids) && LeasedThese(before, m.slices, ids)
    modifies m
    ensures m.Valid() && m.slices == before
  {
    for i := 0 to |ids|
      invariant m.Valid() && LeasedThese(before, m.slices, ids[i..])
    {
      assert ids[i..] == [ids[i]] + ids[i + 1..];
      assert ids[i] !in ids[i + 1..];
      var _ := m.Unlease(ids[i]);
    }
  }

  /** Every leased slice free again, the rest as they were. */
  function Returned(slices: seq<Slice>): (r: seq<Slice>)
    ensures |r| == |slices|
  {
    seq(|slices|, i requires 0 <= i < |slices| =>
      if slices[i].state.Leased? then slices[i].(state := Free) else slices[i])
  }

  method ReleaseSlices(m: SliceMap)
    requires m.Valid()
    modifies m
    ensures m.Valid() && m.slices == Returned(old(m.slices)) && LeasedSet(m.slices) == {}
  {
    var leased := IdsIn(m.slices, Leased);
    IdsInMeans(m.slices, Leased);
    for i := 0 to |leased|
      invariant m.Valid() && |m.slices| == |old(m.slices)|
      invariant forall x :: 0 <= x < |m.slices| ==>
                  m.slices[x] == if x in leased[..i] then Returned(old(m.slices))[x] else old(m.slices)[x]
    {
      assert leased[..i + 1] == leased[..i] + [leased[i]];
      assert leased[i] in leased;
      assert leased[i] !in leased[..i];
      var _ := m.Unlease(leased[i]);
    }
    assert leased[..|leased|] == leased;
    forall x | 0 <= x < |m.slices| ensures m.slices[x] == Returned(old(m.slices))[x] {
      if old(m.slices)[x].state.Leased? {
        assert x in leased;
      }
    }
  }

  /** The free slices among those still mounted go back to their tenant. */
  function Readopted(slices: seq<Slice>, mounted: seq<SliceId>, tenant: TenantId): (r: seq<Slice>)
    ensures |r| == |slices|
  {
    seq(|slices|, i requires 0 <= i < |slices| =>
      if i in mounted && slices[i].state.Free? then slices[i].(state := Active, tenant := Some(tenant)) else slices[i])
  }

  method Readopt(m: SliceMap, mounted: seq<SliceId>, tenant: TenantId)
    requires m.Valid()
    modifies m
    ensures m.Valid() && m.slices == Readopted(old(m.slices), mounted, tenant)
  {
    for i := 0 to |mounted|
      invariant m.Valid() && m.slices == Readopted(old(m.slices), mounted[..i], tenant)
    {
      assert mounted[..i + 1] == mounted[..i] + [mounted[i]];
      var _ := m.Assign(mounted[i], tenant);
    }
    assert mounted[..|mounted|] == mounted;
  }

  /** The bytes of a grant, unless some slice of it is not free or the sum overflows. */
  method GrantTotal(m: SliceMap, ids: seq<SliceId>) returns (total: Option<nat>)
    requires m.Valid()
    ensures total.Some? <==>
              && (forall i :: 0 <= i < |ids| ==> ids[i] < |m.slices| && m.slices[ids[i]].state.Free?)
              && |ids| * m.sliceBytes <= U64_MAX
    ensures total.Some? ==> total.value == |ids| * m.sliceBytes
  {
    var sum := 0;
    for i := 0 to |ids|
      invariant sum == i * m.sliceBytes <= U64_MAX
      invariant forall k :: 0 <= k < i ==> ids[k] < |m.slices| && m.slices[ids[k]].state.Free?
    {
      var at := m.Find(ids[i]);
      NextMultiple(i, |ids|, m.sliceBytes);
      if at.None? || m.slices[at.value].state != Free || sum + m.slices[at.value].len > U64_MAX {
        return None;
      }
      OneLess(i + 1, m.sliceBytes);
      sum := sum + m.slices[at.value].len;
    }
    return Some(sum);
  }

  // ---------------------------------------------------------------- the core

  class BrokerCore {
    const sliceMap: SliceMap
    const arbiter: PressureArbiter
    const leaseBook: LeaseBook
    const leaseTtl: nat
    var pendingDest: map<SliceId, TenantId>

    constructor (m: SliceMap, cfg: Config, leaseTtl: nat, lastInstant: nat)
      requires m.Valid() && m.TotalBytes() <= U64_MAX
      ensures fresh(arbiter) && fresh(leaseBook) && sliceMap == m && arbiter.cfg == cfg && this.leaseTtl == leaseTtl
      ensures arbiter.Valid() && arbiter.log == [] && leaseBook.pending.None? && leaseBook.active.None?
      ensures pendingDest == map[]
      ensures arbiter.streak == 0 && arbiter.lastMove.None? && arbiter.cooldownUntil.None?
      ensures Valid() <==> LeasedSet(m.slices) == {}
    {
      sliceMap, this.leaseTtl, pendingDest := m, leaseTtl, map[];
      arbiter := new PressureArbiter(cfg);
      leaseBook := new LeaseBook(m.TotalBytes(), lastInstant);
    }

    /** The parts agree: leased slices hold exactly the active lease's bytes, and only draining slices have a
        destination. */
    ghost predicate Valid()
      reads this, sliceMap, arbiter, leaseBook
    {
      && sliceMap.Valid() && arbiter.Valid() && leaseBook.Valid()
      && sliceMap.TotalBytes() == leaseBook.capacity <= U64_MAX
      && Conserved() && DestinationsDrain()
    }

    ghost predicate Conserved()
      reads sliceMap, leaseBook
    {
      match leaseBook.active
      case None => LeasedSet(sliceMap.slices) == {}
      case Some(a) => |LeasedSet(sliceMap.slices)| * sliceMap.sliceBytes == a.0.bytes
    }

    ghost predicate DestinationsDrain()
      reads this, sliceMap
    {
      forall x :: x in pendingDest ==> x < |sliceMap.slices| && sliceMap.slices[x].state.Draining?
    }

    ghost function Now(): Plan
      reads this, sliceMap
    {
      Plan(sliceMap.slices, pendingDest)
    }

    ghost function LeaseTerms(): Terms {
      Terms(leaseTtl, leaseBook.lastInstant, sliceMap.sliceBytes)
    }

    /** A request becomes pending; nothing is leased yet. */
    method OnLeaseRequest(holder: TenantId, bytes: nat) returns (r: Result<Pending, Deny>)
      requires Valid()
      modifies leaseBook
      ensures Valid()
      ensures r.Ok? <==>
                0 < bytes <= sliceMap.TotalBytes() && old(leaseBook.pending).None? && old(leaseBook.active).None?
      ensures r.Ok? ==> leaseBook.pending == Some(Pending(holder, bytes))
      ensures r.Err? ==> leaseBook.Untouched()
    {
      r := leaseBook.BeginRequest(holder, bytes);
    }

    /** The holder gives its lease back, and all its slices with it; anyone else changes nothing. */
    method OnLeaseRelease(holder: TenantId, lease: nat, now: nat) returns (done: bool)
      requires Valid()
      modifies leaseBook, sliceMap
      ensures Valid()
      ensures done <==>
                && old(leaseBook.active).Some? && old(leaseBook.active).value.0.holder == holder
                && old(leaseBook.active).value.0.id == lease
      ensures done ==> leaseBook.active.None? && sliceMap.slices == Returned(old(sliceMap.slices))
      ensures !done ==> leaseBook.Untouched() && sliceMap.slices == old(sliceMap.slices)
    {
      var r := leaseBook.Release(holder, lease, now);
      done := r == Ok(true);
      if done {
        ReleaseSlices(sliceMap);
      }
    }

    /** A disconnect withdraws a pending request but keeps an active lease and its slices. */
    method OnDisconnect(tenant: TenantId)
      requires Valid()
      modifies leaseBook
      ensures Valid() && leaseBook.active == old(leaseBook.active)
      ensures leaseBook.pending ==
              if old(leaseBook.pending).Some? && old(leaseBook.pending).value.holder == tenant then None
                else old(leaseBook.pending)
    {
      var _, _ := leaseBook.Disconnect(tenant);
    }

    /** A pressure report: the first one re-adopts slices the tenant still has mounted, if they are free; every one
        renews the tenant's own lease. */
    method OnPsi(tenant: TenantId, first: bool, mounted: seq<SliceId>, now: nat)
      requires Valid()
      modifies leaseBook, sliceMap
      ensures Valid()
      ensures sliceMap.slices ==
                if first then Readopted(old(sliceMap.slices), mounted, tenant) else old(sliceMap.slices)
      ensures leaseBook.pending == old(leaseBook.pending)
      ensures var renews :=
                && old(leaseBook.active).Some? && old(leaseBook.active).value.0.holder == tenant
                && 0 < leaseTtl && now + leaseTtl <= leaseBook.lastInstant;
              leaseBook.active ==
              if renews then Some((old(leaseBook.active).value.0, now + leaseTtl)) else old(leaseBook.active)
    {
      if first {
        Readopt(sliceMap, mounted, tenant);
      }
      assert LeasedSet(sliceMap.slices) == old(LeasedSet(sliceMap.slices));
      var _ := leaseBook.RenewActive(tenant, now, leaseTtl);
    }

    /** A failed mount frees the slice at once; nothing was written to it. */
    method OnMountFailed(slice: SliceId)
      requires Valid()
      modifies this, sliceMap
      ensures Valid()
      ensures pendingDest == old(pendingDest) - {slice}
      ensures var before := old(sliceMap.slices);
              sliceMap.slices ==
              if slice < |before| && before[slice].state.Active?
              then before[slice := before[slice].(state := Free, tenant := None)] else before
    {
      var r := sliceMap.Drain(slice);
      if r.Ok? {
        var _ := sliceMap.Release(slice);
      }
      pendingDest := pendingDest - {slice};
      assert LeasedSet(sliceMap.slices) == old(LeasedSet(sliceMap.slices));
    }

    /** A zeroed slice goes to its waiting tenant, or becomes free. */
    method OnZeroDone(slice: SliceId)
      requires Valid()
      modifies this, sliceMap
      ensures Valid()
      ensures var before, dest := old(sliceMap.slices), old(pendingDest);
              if slice < |before| && before[slice].state.Draining?
              then
                && pendingDest == dest - {slice}
                && sliceMap.slices ==
                   before[slice := if slice in dest then before[slice].(state := Active, tenant := Some(dest[slice]))
                                   else before[slice].(state := Free, tenant := None)]
              else sliceMap.slices == before && pendingDest == dest
    {
      var r := sliceMap.Release(slice);
      if r.Err? {
        return;
      }
      if slice in pendingDest {
        var dest := pendingDest[slice];
        pendingDest := pendingDest - {slice};
        var _ := sliceMap.Assign(slice, dest);
      }
      assert LeasedSet(sliceMap.slices) == old(LeasedSet(sliceMap.slices));
    }

    /** Applies one assignment, movement, revert or revocation. */
    method ApplyOne(a: Action)
      requires Valid() && !a.GrantLease?
      modifies this, sliceMap
      ensures Valid() && Now() == Applied(old(Now()), a)
      ensures LeasedSet(sliceMap.slices) == old(LeasedSet(sliceMap.slices))
    {
      if a.AssignFree? {
        var _ := sliceMap.Assign(a.slice, a.to);
      } else {
        var r := sliceMap.Drain(a.slice);
        if r.Ok? && !a.RevokeForLease? {
          pendingDest := pendingDest[a.slice := a.to];
        }
      }
      assert LeasedSet(sliceMap.slices) == old(LeasedSet(sliceMap.slices));
    }

    method ApplyMoves(actions: seq<Action>)
      requires Valid() && forall i :: 0 <= i < |actions| ==> !actions[i].GrantLease?
      modifies this, sliceMap
      ensures Valid() && Now() == AppliedAll(old(Now()), actions)
      ensures LeasedSet(sliceMap.slices) == old(LeasedSet(sliceMap.slices))
    {
      for k := 0 to |actions|
        invariant Valid() && AppliedAll(Now(), actions[k..]) == AppliedAll(old(Now()), actions)
        invariant LeasedSet(sliceMap.slices) == old(LeasedSet(sliceMap.slices))
      {
        assert actions[k..][0] == actions[k] && actions[k..][1..] == actions[k + 1..];
        ApplyOne(actions[k]);
      }
    }

    /** Books a grant and leases its slices.  Refused only for a lifetime that cannot be booked, which withdraws the
        request, or when lease ids have run out. */
    method ServeGrant(now: nat, holder: TenantId, ids: seq<SliceId>)
      requires Valid() && leaseBook.pending.Some? && leaseBook.pending.value.holder == holder
      requires Applies(sliceMap.slices, ids)
      requires leaseBook.pending.value.bytes <= |ids| * sliceMap.sliceBytes <= leaseBook.capacity
      modifies sliceMap, leaseBook
      ensures Valid()
      ensures GrantOutcome(LeaseTerms(), now, ids, old(leaseBook.Now()), old(sliceMap.slices), leaseBook.Now(),
                           sliceMap.slices)
    {
      if leaseTtl == 0 || now + leaseTtl > leaseBook.lastInstant {
        var _ := leaseBook.CancelPending(holder);
        return;
      }
      var total := GrantTotal(sliceMap, ids);
      var lease := leaseBook.GrantPending(total.value, now, leaseTtl);
      if lease.Err? {
        return;
      }
      var ok := LeaseAll(sliceMap, ids);
      if !ok {
        assert false;  // the slices of a grant are distinct and free
      }
      LeasedCount(old(sliceMap.slices), sliceMap.slices, ids);
    }

    /** A tick with a request pending.  The arbiter never reports a conflict here: the request is granted exactly when
        enough slices are free, otherwise slices start draining for it, least pressured owners first. */
    method ServeLease(now: nat, present: set<TenantId>, pressures: seq<(TenantId, real)>)
      returns (ghost revoked: seq<Action>)
      requires Valid() && leaseBook.pending.Some?
      modifies this, sliceMap, arbiter, leaseBook
      ensures Valid() && pendingDest == old(pendingDest) && 0 < sliceMap.sliceBytes
      ensures arbiter.log == old(arbiter.log) && arbiter.handouts == old(arbiter.handouts)
      ensures LeaseTicked(LeaseTerms(), now, present, pressures, old(leaseBook.Now()), old(sliceMap.slices),
                          leaseBook.Now(), sliceMap.slices, revoked)
    {
      var actions := AskForLease(now, present, pressures);
      revoked := actions;
      ghost var book := leaseBook.Now();
      assert book == old(leaseBook.Now());
      CarryOut(now, present, pressures, actions);
    }

    /** The grant is booked and leased, or the revocations take effect. */
    method CarryOut(now: nat, ghost present: set<TenantId>, ghost pressures: seq<(TenantId, real)>,
                    actions: seq<Action>)
      requires Valid() && leaseBook.pending.Some? && 0 < sliceMap.sliceBytes
      requires LeaseServed(Now(), sliceMap.sliceBytes, present, pressures, leaseBook.pending.value.holder,
                           leaseBook.pending.value.bytes, actions)
      modifies this, sliceMap, leaseBook
      ensures Valid() && pendingDest == old(pendingDest)
      ensures LeaseTicked(LeaseTerms(), now, present, pressures, old(leaseBook.Now()), old(sliceMap.slices),
                          leaseBook.Now(), sliceMap.slices, actions)
    {
      ghost var plan, book := Now(), leaseBook.Now();
      if |actions| == 1 && actions[0].GrantLease? {
        GrantIsFirstFree(plan, LeaseTerms(), present, pressures, book, actions);
        ServeGrant(now, leaseBook.pending.value.holder, actions[0].slices);
        GrantTicked(plan, LeaseTerms(), now, present, pressures, book, actions, leaseBook.Now(), sliceMap.slices);
      } else {
        RevocationsTicked(plan, LeaseTerms(), now, present, pressures, book, actions);
        ApplyMoves(actions);
      }
    }

    /** The arbiter's answer to the pending request: one grant that can be booked and leased, or revocations that all
        take effect. */
    method AskForLease(now: nat, present: set<TenantId>, pressures: seq<(TenantId, real)>)
      returns (actions: seq<Action>)
      requires Valid() && leaseBook.pending.Some?
      modifies arbiter
      ensures Valid() && 0 < sliceMap.sliceBytes
      ensures arbiter.log == old(arbiter.log) && arbiter.handouts == old(arbiter.handouts)
      ensures LeaseServed(Now(), sliceMap.sliceBytes, present, pressures, leaseBook.pending.value.holder,
                          leaseBook.pending.value.bytes, actions)
    {
      var holder, bytes := leaseBook.pending.value.holder, leaseBook.pending.value.bytes;
      VisibleIsView(sliceMap.slices, present);
      var r, _, _ := arbiter.Tick(now, Views(sliceMap.slices, pressures), Visible(sliceMap.slices, present),
                                  Some((holder, bytes)));
      LeaseAnswered(Now(), sliceMap.sliceBytes, present, pressures, holder, bytes, r);
      return r.value;
    }

    /** A tick without a request: at most one slice starts moving, and every free slice goes to the next tenant in
        turn. */
    method Rebalance(now: nat, present: set<TenantId>, pressures: seq<(TenantId, real)>)
      returns (ghost shift: Option<Action>, ghost given: seq<TenantId>)
      requires Valid() && leaseBook.pending.None?
      modifies this, sliceMap, arbiter
      ensures Valid() && LeasedSet(sliceMap.slices) == old(LeasedSet(sliceMap.slices))
      ensures var free := if pressures == [] then [] else IdsIn(old(sliceMap.slices), Free);
              Rebalanced(old(Now()), Now(), shift, free, given)
      ensures Decided(arbiter.cfg, old(arbiter.log), arbiter.log, now, Views(old(sliceMap.slices), pressures),
                      Visible(old(sliceMap.slices), present), shift)
      ensures shift.Some? && shift.value.MoveSlice? ==> MovedAway(old(sliceMap.slices), sliceMap.slices, shift.value)
      ensures arbiter.seen == old(arbiter.seen) + [Views(old(sliceMap.slices), pressures)]
      ensures Handed(old(arbiter.handouts), arbiter.handouts, TenantIds(Views(old(sliceMap.slices), pressures)), given)
    {
      var actions;
      actions, shift, given := AskToRebalance(now, present, pressures);
      ApplyMoves(actions);
    }

    /** The arbiter's answer to a tick without a request, and what it will do to the slices. */
    method AskToRebalance(now: nat, present: set<TenantId>, pressures: seq<(TenantId, real)>)
      returns (actions: seq<Action>, ghost shift: Option<Action>, ghost given: seq<TenantId>)
      requires Valid() && leaseBook.pending.None?
      modifies arbiter
      ensures Valid() && forall i :: 0 <= i < |actions| ==> !actions[i].GrantLease?
      ensures var free := if pressures == [] then [] else IdsIn(sliceMap.slices, Free);
              Rebalanced(Now(), AppliedAll(Now(), actions), shift, free, given)
      ensures Decided(arbiter.cfg, old(arbiter.log), arbiter.log, now, Views(sliceMap.slices, pressures),
                      Visible(sliceMap.slices, present), shift)
      ensures shift.Some? && shift.value.MoveSlice? ==>
                MovedAway(sliceMap.slices, AppliedAll(Now(), actions).slices, shift.value)
      ensures arbiter.seen == old(arbiter.seen) + [Views(sliceMap.slices, pressures)]
      ensures Handed(old(arbiter.handouts), arbiter.handouts, TenantIds(Views(sliceMap.slices, pressures)), given)
    {
      ghost var slices := sliceMap.slices;
      VisibleIsView(slices, present);
      var r;
      r, shift, given := arbiter.Tick(now, Views(sliceMap.slices, pressures), Visible(sliceMap.slices, present), None);
      actions := r.value;
      FreeSlices(slices);
      TickApplied(Now(), actions, shift, if pressures == [] then [] else IdsIn(slices, Free), given);
      if shift.Some? && shift.value.MoveSlice? {
        assert actions[0] == shift.value;
        OnlyTheMove(Now(), AppliedAll(Now(), actions), present, shift.value, given);
      }
    }

    /** An expired lease returns all its slices; otherwise nothing happens. */
    method ExpireLease(now: nat)
      requires Valid()
      modifies sliceMap, leaseBook
      ensures Valid() && leaseBook.pending == old(leaseBook.pending)
      ensures if old(leaseBook.active).Some? && old(leaseBook.active).value.1 <= now
              then leaseBook.active.None? && sliceMap.slices == Returned(old(sliceMap.slices))
              else leaseBook.Untouched() && sliceMap.slices == old(sliceMap.slices)
    {
      var expired := leaseBook.Expire(now);
      if expired.Some? {
        ReleaseSlices(sliceMap);
      }
    }

    /** The periodic event: an expired lease returns its slices, then the arbiter decides.  Until then the lease keeps
        exactly the slices it was granted. */
    method OnTick(now: nat, present: set<TenantId>, pressures: seq<(TenantId, real)>)
      returns (ghost revoked: seq<Action>, ghost shift: Option<Action>, ghost given: seq<TenantId>)
      requires Valid()
      modifies this, sliceMap, arbiter, leaseBook
      ensures Valid()
      ensures old(Expired(now)) ==> leaseBook.active.None? && LeasedSet(sliceMap.slices) == {}
      ensures old(leaseBook.active).Some? && !old(Expired(now)) ==>
                && leaseBook.active == old(leaseBook.active)
                && LeasedSet(sliceMap.slices) == old(LeasedSet(sliceMap.slices))
      ensures old(leaseBook.pending).Some? ==>
                && pendingDest == old(pendingDest) && 0 < sliceMap.sliceBytes
                && arbiter.log == old(arbiter.log) && arbiter.handouts == old(arbiter.handouts)
                && LeaseTicked(LeaseTerms(), now, present, pressures, old(leaseBook.Now()), old(sliceMap.slices),
                               leaseBook.Now(), sliceMap.slices, revoked)
      ensures old(leaseBook.pending).None? ==>
                var slices := if old(Expired(now)) then Returned(old(sliceMap.slices)) else old(sliceMap.slices);
                var free := if pressures == [] then [] else IdsIn(slices, Free);
                && Rebalanced(Plan(slices, old(pendingDest)), Now(), shift, free, given)
                && arbiter.seen == old(arbiter.seen) + [Views(slices, pressures)]
                && Handed(old(arbiter.handouts), arbiter.handouts, TenantIds(Views(slices, pressures)), given)
                && Decided(arbiter.cfg, old(arbiter.log), arbiter.log, now, Views(slices, pressures),
                           Visible(slices, present), shift)
    {
      revoked, shift, given := [], None, [];
      ExpireLease(now);
      if leaseBook.pending.Some? {
        revoked := ServeLease(now, present, pressures);
      } else {
        shift, given := Rebalance(now, present, pressures);
      }
    }

    ghost predicate Expired(now: nat)
      reads leaseBook
    {
      leaseBook.active.Some? && leaseBook.active.value.1 <= now
    }
  }

  /** What the arbiter is told about each connected tenant. */
  function Views(slices: seq<Slice>, pressures: seq<(TenantId, real)>): (r: seq<TenantView>)
    ensures |r| == |pressures|
  {
    seq(|pressures|, i requires 0 <= i < |pressures| =>
      TenantView(pressures[i].0, pressures[i].1, Held(slices, pressures[i].0)))
  }

  lemma NoConflict(slices: seq<Slice>, present: set<TenantId>)
    requires Indexed(slices) && LeasedSet(slices) == {}
    ensures forall i :: 0 <= i < |Visible(slices, present)| ==> !Visible(slices, present)[i].state.Leased?
  {
    VisibleIsView(slices, present);
    var v := Visible(slices, present);
    forall i | 0 <= i < |v| ensures !v[i].state.Leased? {
      assert v[i].id !in LeasedSet(slices);
    }
  }

  /** The lease tick's revocations: some visible active slices start draining, no more than are missing. */
  ghost predicate Revoked(before: seq<Slice>, after: seq<Slice>, present: set<TenantId>,
                          pressures: seq<(TenantId, real)>, deficit: nat, actions: seq<Action>)
  {
    && |after| == |before|
    && RevokesLeastPressured(Views(before, pressures), Visible(before, present), deficit, actions)
    && (forall i :: 0 <= i < |actions| ==> actions[i].RevokeForLease?)
    && forall x :: 0 <= x < |before| ==>
                     after[x] == if x in Targets(actions) then before[x].(state := Draining) else before[x]
  }

  /** An ordinary tick: the movement, if any, starts one active slice draining towards its new tenant; each free
      slice becomes active for the tenant it was given to. */
  ghost predicate Rebalanced(before: Plan, after: Plan, shift: Option<Action>, free: seq<SliceId>, given: seq<TenantId>)
  {
    && |after.slices| == |before.slices| && |given| == |free|
    && (shift.Some? ==> IsShift(shift.value))
    && (forall i :: 0 <= i < |free| ==>
          && free[i] < |before.slices|
          && after.slices[free[i]] == before.slices[free[i]].(state := Active, tenant := Some(given[i])))
    && var moved := if shift.Some? then Applied(before, shift.value) else before;
       && after.dest == moved.dest
       && forall x :: 0 <= x < |before.slices| && x !in free ==> after.slices[x] == moved.slices[x]
  }

  /** The free slices of the map, each once. */
  lemma FreeSlices(slices: seq<Slice>)
    requires Indexed(slices)
    ensures Applies(slices, IdsIn(slices, Free)) && |IdsIn(slices, Free)| <= |slices|
  {
    assert WellFormed(slices);
    IdsInMeans(slices, Free);
    var free := IdsIn(slices, Free);
    forall i | 0 <= i < |free| ensures free[i] < |slices| && slices[free[i]].state.Free? {
      assert free[i] in free;
    }
  }

  /** A request that fits the map needs at least one slice, and no more than there are. */
  lemma NeedPositive(bytes: nat, len: nat, total: nat)
    requires 0 < bytes <= total * len
    ensures 0 < len && 0 < CeilQuot(bytes, len)
  {
    assert 0 < len;
    CeilDiv(bytes, len);
  }

  /** Either one grant of the first free slices, which can be leased and booked, or revocations that all take effect. */
  ghost predicate LeaseServed(p: Plan, sliceBytes: nat, present: set<TenantId>, pressures: seq<(TenantId, real)>,
                              holder: TenantId, bytes: nat, actions: seq<Action>)
    requires 0 < sliceBytes
  {
    var free, need := IdsIn(p.slices, Free), CeilQuot(bytes, sliceBytes);
    if need <= |free| then
      && actions == [GrantLease(holder, free[..need])] && Applies(p.slices, free[..need])
      && bytes <= need * sliceBytes <= |p.slices| * sliceBytes
    else
      && (forall i :: 0 <= i < |actions| ==> actions[i].RevokeForLease?)
      && AppliedAll(p, actions).dest == p.dest
      && Revoked(p.slices, AppliedAll(p, actions).slices, present, pressures, need - |free|, actions)
  }

  /** How long leases run, when time ends, and how large a slice is. */
  datatype Terms = Terms(ttl: nat, lastInstant: nat, sliceBytes: nat)

  /** What a grant of these slices comes to. */
  ghost predicate GrantOutcome(t: Terms, now: nat, ids: seq<SliceId>, book: Book, slices: seq<Slice>, book': Book,
                               slices': seq<Slice>)
    requires book.pending.Some?
  {
    if t.ttl == 0 || now + t.ttl > t.lastInstant then
      book'.pending.None? && book'.active == book.active && slices' == slices
    else if book.nextId == U32_MAX then book' == book && slices' == slices
    else
      var lease := LogicalLease(book.nextId, book.pending.value.holder, |ids| * t.sliceBytes);
      && book'.pending.None? && book'.active == Some((lease, now + t.ttl))
      && LeasedThese(slices, slices', ids)
  }

  /** What a tick with a request pending does: a grant exactly when enough slices are free, revocations otherwise. */
  ghost predicate LeaseTicked(t: Terms, now: nat, present: set<TenantId>, pressures: seq<(TenantId, real)>,
                              book: Book, slices: seq<Slice>, book': Book, slices': seq<Slice>, revoked: seq<Action>)
    requires book.pending.Some? && 0 < t.sliceBytes
  {
    var free, need := IdsIn(slices, Free), CeilQuot(book.pending.value.bytes, t.sliceBytes);
    if need <= |free| then GrantOutcome(t, now, free[..need], book, slices, book', slices')
    else book' == book && Revoked(slices, slices', present, pressures, need - |free|, revoked)
  }

  lemma GrantIsFirstFree(p: Plan, t: Terms, present: set<TenantId>, pressures: seq<(TenantId, real)>, book: Book,
                         actions: seq<Action>)
    requires book.pending.Some? && 0 < t.sliceBytes && |actions| == 1 && actions[0].GrantLease?
    requires LeaseServed(p, t.sliceBytes, present, pressures, book.pending.value.holder, book.pending.value.bytes,
                         actions)
    ensures var free, need := IdsIn(p.slices, Free), CeilQuot(book.pending.value.bytes, t.sliceBytes);
            && need <= |free| && actions[0].slices == free[..need] && Applies(p.slices, actions[0].slices)
            && book.pending.value.bytes <= |actions[0].slices| * t.sliceBytes <= |p.slices| * t.sliceBytes
  {
  }

  lemma GrantTicked(p: Plan, t: Terms, now: nat, present: set<TenantId>, pressures: seq<(TenantId, real)>, book: Book,
                    actions: seq<Action>, book': Book, slices': seq<Slice>)
    requires book.pending.Some? && 0 < t.sliceBytes && |actions| == 1 && actions[0].GrantLease?
    requires LeaseServed(p, t.sliceBytes, present, pressures, book.pending.value.holder, book.pending.value.bytes,
                         actions)
    requires GrantOutcome(t, now, actions[0].slices, book, p.slices, book', slices')
    ensures LeaseTicked(t, now, present, pressures, book, p.slices, book', slices', actions)
  {
    GrantIsFirstFree(p, t, present, pressures, book, actions);
  }

  lemma RevocationsTicked(p: Plan, t: Terms, now: nat, present: set<TenantId>, pressures: seq<(TenantId, real)>,
                          book: Book, actions: seq<Action>)
    requires book.pending.Some? && 0 < t.sliceBytes && !(|actions| == 1 && actions[0].GrantLease?)
    requires LeaseServed(p, t.sliceBytes, present, pressures, book.pending.value.holder, book.pending.value.bytes,
                         actions)
    ensures forall i :: 0 <= i < |actions| ==> !actions[i].GrantLease?
    ensures AppliedAll(p, actions).dest == p.dest
    ensures LeaseTicked(t, now, present, pressures, book, p.slices, book, AppliedAll(p, actions).slices, actions)
  {
  }

  /** Without leased slices the arbiter answers every request that fits the map so. */
  lemma LeaseAnswered(p: Plan, sliceBytes: nat, present: set<TenantId>, pressures: seq<(TenantId, real)>,
                      holder: TenantId, bytes: nat, r: Result<seq<Action>, ArbiterError>)
    requires Indexed(p.slices) && LeasedSet(p.slices) == {} && 0 < bytes <= |p.slices| * sliceBytes
    requires forall i :: 0 <= i < |p.slices| ==> p.slices[i].len == sliceBytes
    requires LeaseAnswer(Views(p.slices, pressures), Visible(p.slices, present), holder, bytes, r)
    ensures r.Ok? && 0 < sliceBytes && LeaseServed(p, sliceBytes, present, pressures, holder, bytes, r.value)
  {
    LeaseDecided(p, sliceBytes, present, pressures, holder, bytes, r);
    var free, need := |IdsIn(p.slices, Free)|, CeilQuot(bytes, sliceBytes);
    if need <= free {
      GrantFits(p.slices, sliceBytes, bytes);
    } else {
      RevocationsApplied(p, present, pressures, need - free, r.value);
    }
  }

  lemma LeaseDecided(p: Plan, sliceBytes: nat, present: set<TenantId>, pressures: seq<(TenantId, real)>,
                     holder: TenantId, bytes: nat, r: Result<seq<Action>, ArbiterError>)
    requires Indexed(p.slices) && LeasedSet(p.slices) == {} && 0 < bytes <= |p.slices| * sliceBytes
    requires forall i :: 0 <= i < |p.slices| ==> p.slices[i].len == sliceBytes
    requires LeaseAnswer(Views(p.slices, pressures), Visible(p.slices, present), holder, bytes, r)
    ensures r.Ok? && 0 < sliceBytes
    ensures var free, need := IdsIn(p.slices, Free), CeilQuot(bytes, sliceBytes);
            if need <= |free| then r.value == [GrantLease(holder, free[..need])]
            else RevokesLeastPressured(Views(p.slices, pressures), Visible(p.slices, present), need - |free|, r.value)
  {
    NeedPositive(bytes, sliceBytes, |p.slices|);
    VisibleIsView(p.slices, present);
    NoConflict(p.slices, present);
    var views, visible := Views(p.slices, pressures), Visible(p.slices, present);
    if visible != [] {
      assert visible[0].len == sliceBytes;
    }
  }

  /** A grant of the first free slices can be carried out and booked. */
  lemma GrantFits(slices: seq<Slice>, sliceBytes: nat, bytes: nat)
    requires Indexed(slices) && 0 < sliceBytes && CeilQuot(bytes, sliceBytes) <= |IdsIn(slices, Free)|
    ensures var need := CeilQuot(bytes, sliceBytes);
            Applies(slices, IdsIn(slices, Free)[..need]) && bytes <= need * sliceBytes <= |slices| * sliceBytes
  {
    FreeSlices(slices);
    GrantCovers(bytes, sliceBytes, CeilQuot(bytes, sliceBytes), |slices|);
  }

  /** Revocations all take effect. */
  lemma RevocationsApplied(p: Plan, present: set<TenantId>, pressures: seq<(TenantId, real)>, deficit: nat,
                           actions: seq<Action>)
    requires Indexed(p.slices)
    requires RevokesLeastPressured(Views(p.slices, pressures), Visible(p.slices, present), deficit, actions)
    ensures forall i :: 0 <= i < |actions| ==> actions[i].RevokeForLease?
    ensures AppliedAll(p, actions).dest == p.dest
    ensures Revoked(p.slices, AppliedAll(p, actions).slices, present, pressures, deficit, actions)
  {
    var visible := Visible(p.slices, present);
    VisibleIsView(p.slices, present);
    RevokeCompatible(Views(p.slices, pressures), visible, deficit, actions);
    forall i | 0 <= i < |actions|
      ensures actions[i].RevokeForLease? && actions[i].slice < |p.slices| && p.slices[actions[i].slice].state.Active?
    {
      assert Enabled(visible, actions[i]);
    }
    forall i, j | 0 <= i < j < |actions| ensures actions[i].slice != actions[j].slice {
      assert Apart(actions[i], actions[j]);
      assert actions[i].slice in SlicesOf(actions[i]);
    }
    AllDrained(p, actions);
    forall x | 0 <= x < |p.slices| && x in Targets(actions)
      ensures AppliedAll(p, actions).slices[x] == p.slices[x].(state := Draining)
    {
      var i :| 0 <= i < |actions| && Targets(actions)[i] == x;
      assert actions[i].slice == x;
    }
  }

  /** A movement touches no free slice. */
  lemma ShiftSparesFree(p: Plan, a: Action, x: SliceId)
    requires IsShift(a) && x < |p.slices| && p.slices[x].state.Free?
    ensures Applied(p, a).slices[x] == p.slices[x]
  {
  }

  /** Assignments after a movement, seen from before it. */
  lemma MovedThenHandedOut(p: Plan, shift: Action, free: seq<SliceId>, given: seq<TenantId>)
    requires IsShift(shift) && |given| == |free| && Applies(p.slices, free)
    ensures Rebalanced(p, AppliedAll(Applied(p, shift), Assignments(free, given)), Some(shift), free, given)
  {
    var q := Applied(p, shift);
    forall i | 0 <= i < |free| ensures q.slices[free[i]] == p.slices[free[i]] {
      ShiftSparesFree(p, shift, free[i]);
    }
    HandedOut(q, free, given);
  }

  /** The actions of an ordinary tick, applied in order, all take effect. */
  lemma TickApplied(p: Plan, actions: seq<Action>, shift: Option<Action>, free: seq<SliceId>, given: seq<TenantId>)
    requires Applies(p.slices, free) && |given| == |free| && (shift.Some? ==> IsShift(shift.value))
    requires actions == (if shift.Some? then [shift.value] else []) + Assignments(free, given)
    ensures forall i :: 0 <= i < |actions| ==> !actions[i].GrantLease?
    ensures Rebalanced(p, AppliedAll(p, actions), shift, free, given)
  {
    var rest := Assignments(free, given);
    if shift.Some? {
      assert actions[0] == shift.value && actions[1..] == rest;
      assert AppliedAll(p, actions) == AppliedAll(Applied(p, shift.value), rest);
      MovedThenHandedOut(p, shift.value, free, given);
    } else {
      assert actions == rest;
      HandedOut(p, free, given);
    }
  }

  /** A tick that moves a slice does nothing else to the map. */
  lemma OnlyTheMove(before: Plan, after: Plan, present: set<TenantId>, a: Action, given: seq<TenantId>)
    requires Indexed(before.slices) && a.MoveSlice? && Enabled(Visible(before.slices, present), a)
    requires Rebalanced(before, after, Some(a), [], given)
    ensures MovedAway(before.slices, after.slices, a)
  {
    VisibleIsView(before.slices, present);
  }

  // ---------------------------------------------------------------- the never-zero rule

  /** How many active slices a tenant holds. */
  function ActiveHeld(slices: seq<Slice>, id: TenantId): (n: nat)
    ensures n <= Held(slices, id)
  {
    if slices == [] then 0
    else ActiveHeld(slices[..|slices| - 1], id) + if ActiveOf(slices[|slices| - 1], id) then 1 else 0
  }

  /** The one slice that moves starts draining; it was the donor's. */
  ghost predicate MovedAway(before: seq<Slice>, after: seq<Slice>, a: Action)
    requires a.MoveSlice?
  {
    && a.slice < |before| && ActiveOf(before[a.slice], a.from)
    && after == before[a.slice := before[a.slice].(state := Draining)]
  }

  lemma {:induction false} OneActiveLess(before: seq<Slice>, x: nat, s: Slice, id: TenantId)
    requires x < |before| && ActiveOf(before[x], id) && !ActiveOf(s, id)
    ensures ActiveHeld(before[x := s], id) == ActiveHeld(before, id) - 1
  {
    var n := |before| - 1;
    if x == n {
      assert before[x := s][..n] == before[..n];
    } else {
      assert before[x := s][..n] == before[..n][x := s];
      OneActiveLess(before[..n], x, s, id);
    }
  }

  /** The arbiter counts draining slices as held.  A move leaves its donor an active slice if and only if the donor
      had two of them; the arbiter's own test, two slices held, says as much exactly when none of them drains. */
  lemma NeverZeroExact(before: seq<Slice>, after: seq<Slice>, a: Action)
    requires a.MoveSlice? && MovedAway(before, after, a)
    ensures 0 < ActiveHeld(after, a.from) <==> 2 <= ActiveHeld(before, a.from)
    ensures (forall i :: 0 <= i < |before| && before[i].tenant == Some(a.from) ==> before[i].state.Active?) ==>
              ActiveHeld(before, a.from) == Held(before, a.from)
  {
    OneActiveLess(before, a.slice, after[a.slice], a.from);
    if forall i :: 0 <= i < |before| && before[i].tenant == Some(a.from) ==> before[i].state.Active? {
      AllActive(before, a.from);
    }
  }

  lemma {:induction false} AllActive(slices: seq<Slice>, id: TenantId)
    requires forall i :: 0 <= i < |slices| && slices[i].tenant == Some(id) ==> slices[i].state.Active?
    ensures ActiveHeld(slices, id) == Held(slices, id)
  {
    if slices != [] {
      AllActive(slices[..|slices| - 1], id);
    }
  }

  ghost predicate OneActiveOneDraining(s: seq<Slice>) {
    && |s| == 3 && ActiveOf(s[0], 1) && s[1].state.Draining? && s[1].tenant == Some(1) && ActiveOf(s[2], 2)
  }

  lemma CountsOfThree(s: seq<Slice>)
    requires OneActiveOneDraining(s)
    ensures Held(s, 1) == 2 && Held(s, 2) == 1 && ActiveHeld(s, 1) == 1
  {
    assert s[..2][..1] == s[..1] && s[..1][..0] == [];
    assert Held(s[..1], 1) == 1 && Held(s[..1], 2) == 0 && ActiveHeld(s[..1], 1) == 1;
  }

  lemma VisibleOfThree(s: seq<Slice>)
    requires OneActiveOneDraining(s)
    ensures Visible(s, {1, 2}) == s && IdsIn(s, Free) == []
  {
    assert s[..2][..1] == s[..1] && s[..1][..0] == [];
    assert Visible([], {1, 2}) == [] && IdsIn([], Free) == [];
    assert Visible(s[..1], {1, 2}) == [s[0]] && IdsIn(s[..1], Free) == [];
    assert s == [s[0], s[1], s[2]];
  }

  lemma PairOfTwo(views: seq<TenantView>)
    requires views == [TenantView(1, 5.0, 2), TenantView(2, 50.0, 1)]
    ensures PressurePair(views) == Some((views[1], views[0], 45.0))
  {
  }

  method ThreeSlices() returns (m: SliceMap)
    ensures fresh(m) && m.Valid() && OneActiveOneDraining(m.slices) && m.sliceBytes == 4096 && LeasedSet(m.slices) == {}
  {
    var made := NewSliceMap(3, 4096, 12288);
    m := made.value;
    var _ := m.Assign(0, 1);
    var _ := m.Assign(1, 1);
    var _ := m.Assign(2, 2);
    var _ := m.Drain(1);
  }

  /** A run where the two differ: tenant 1, above the floor, has one active and one draining slice, and loses the
      active one to tenant 2. */
  method LastActiveLost() returns (core: BrokerCore)
    ensures fresh(core) && core.Valid()
    ensures core.arbiter.cfg.psiFloor < 5.0 && core.arbiter.seen == [[TenantView(1, 5.0, 2), TenantView(2, 50.0, 1)]]
    ensures ActiveHeld(core.sliceMap.slices, 1) == 0
  {
    var m := ThreeSlices();
    core := new BrokerCore(m, Config(10.0, 1, 0, 1.0, 0, 2.0, 0), 1, 1);
    ghost var before := m.slices;
    ghost var views := Views(before, [(1, 5.0), (2, 50.0)]);
    CountsOfThree(before);
    VisibleOfThree(before);
    PairOfTwo(views);
    assert MayGive(core.arbiter.cfg, views[0], before) by {
      assert ActiveOf(before[0], 1);
    }
    ghost var shift, given;
    shift, given := core.Rebalance(0, {1, 2}, [(1, 5.0), (2, 50.0)]);
    NeverZeroExact(before, core.sliceMap.slices, shift.value);
  }
}
