/** Logical lease ownership, with its laws stated over the whole history of grants, renewals and endings. */
module Lease {
  import opened Bytes
  import opened Slices

  datatype Pending = Pending(holder: TenantId, bytes: nat)

  datatype LogicalLease = LogicalLease(id: nat, holder: TenantId, bytes: nat)

  datatype Deny = ZeroBytes | OverCapacity | AlreadyHeld | WrongHolder | WrongLease | InsufficientGrant
                | LeaseIdExhausted
                | InvalidTtl | DeadlineOverflow

  datatype Event = Granted(lease: LogicalLease, deadline: nat) | Renewed(id: nat, deadline: nat)
                 | Ended(id: nat, expired: bool, at: nat)

  function Id(e: Event): nat {
    match e
    case Granted(l, _) => l.id
    case Renewed(id, _) => id
    case Ended(id, _, _) => id
  }

  /** The deadline that the latest grant or renewal of `id` set. */
  function Deadline(log: seq<Event>, id: nat): Option<nat> {
    if log == [] then None
    else
      var e := log[|log| - 1];
      if !e.Ended? && Id(e) == id then Some(e.deadline) else Deadline(log[..|log| - 1], id)
  }

  /** Every id granted among the first `n` events is below `id`. */
  ghost predicate GrantsBelow(log: seq<Event>, n: nat, id: nat)
    requires n <= |log|
  {
    forall i :: 0 <= i < n && log[i].Granted? ==> Id(log[i]) < id
  }

  /** `id` was granted among the first `n` events. */
  ghost predicate GrantedBefore(log: seq<Event>, n: nat, id: nat)
    requires n <= |log|
  {
    exists i :: 0 <= i < n && log[i].Granted? && Id(log[i]) == id
  }

  /** `id` ended among the first `n` events. */
  ghost predicate EndedBefore(log: seq<Event>, n: nat, id: nat)
    requires n <= |log|
  {
    exists i :: 0 <= i < n && log[i].Ended? && Id(log[i]) == id
  }

  /** What the laws ask of the event at position `n`: a granted id is larger than all before it; a lease is renewed
      only while it runs and ends once, after its grant; it expires only at or after its latest deadline. */
  ghost predicate LawfulAt(log: seq<Event>, n: nat)
    requires n < |log|
  {
    match log[n]
    case Granted(l, _) => GrantsBelow(log, n, l.id)
    case Renewed(id, _) => GrantedBefore(log, n, id) && !EndedBefore(log, n, id)
    case Ended(id, expired, at) =>
      && GrantedBefore(log, n, id) && !EndedBefore(log, n, id)
      && (expired ==> Deadline(log[..n], id).Some? && Deadline(log[..n], id).value <= at)
  }

  ghost predicate Lawful(log: seq<Event>) {
    forall n :: 0 <= n < |log| ==> LawfulAt(log, n)
  }

  /** How the book's state summarises the history. */
  ghost predicate Summary(log: seq<Event>, nextId: nat, active: Option<(LogicalLease, nat)>) {
    && GrantsBelow(log, |log|, nextId)
    && (active.Some? ==>
          && Deadline(log, active.value.0.id) == Some(active.value.1)
          && GrantedBefore(log, |log|, active.value.0.id) && !EndedBefore(log, |log|, active.value.0.id))
  }

  /** Read over whole histories: ids strictly increase and so are never reused, no lease ends twice, and none is
      renewed once it has ended. */
  lemma LawfulMeans(log: seq<Event>)
    requires Lawful(log)
    ensures forall i, j :: 0 <= i < j < |log| && log[i].Granted? && log[j].Granted? ==> Id(log[i]) < Id(log[j])
    ensures forall i, j :: 0 <= i < j < |log| && log[i].Ended? && !log[j].Granted? ==> Id(log[i]) != Id(log[j])
  {
    forall i, j | 0 <= i < j < |log| && log[i].Ended? && !log[j].Granted? ensures Id(log[i]) != Id(log[j]) {
      assert LawfulAt(log, j);
    }
    forall i, j | 0 <= i < j < |log| && log[i].Granted? && log[j].Granted? ensures Id(log[i]) < Id(log[j]) {
      assert LawfulAt(log, j);
    }
  }

  /** Positions that two histories share are judged alike. */
  lemma SameBefore(log: seq<Event>, e: Event, n: nat, id: nat)
    requires n <= |log|
    ensures GrantsBelow(log + [e], n, id) == GrantsBelow(log, n, id)
    ensures GrantedBefore(log + [e], n, id) == GrantedBefore(log, n, id)
    ensures EndedBefore(log + [e], n, id) == EndedBefore(log, n, id)
    ensures (log + [e])[..n] == log[..n]
  {
    var next := log + [e];
    assert forall i :: 0 <= i < n ==> next[i] == log[i];
    if EndedBefore(next, n, id) {
      var i :| 0 <= i < n && next[i].Ended? && Id(next[i]) == id;
      assert log[i].Ended? && Id(log[i]) == id;
    }
    if GrantedBefore(next, n, id) {
      var i :| 0 <= i < n && next[i].Granted? && Id(next[i]) == id;
      assert log[i].Granted? && Id(log[i]) == id;
    }
    if GrantsBelow(next, n, id) {
      forall i | 0 <= i < n && log[i].Granted? ensures Id(log[i]) < id {
        assert next[i] == log[i];
      }
    }
  }

  /** A history stays lawful if its new last event is. */
  lemma Extend(log: seq<Event>, e: Event)
    requires Lawful(log) && LawfulAt(log + [e], |log|)
    ensures Lawful(log + [e])
  {
    forall n | 0 <= n < |log| ensures LawfulAt(log + [e], n) {
      assert LawfulAt(log, n) && (log + [e])[n] == log[n];
      SameBefore(log, e, n, Id(log[n]));
    }
  }

  lemma GrantStep(log: seq<Event>, nextId: nat, active: Option<(LogicalLease, nat)>, l: LogicalLease, deadline: nat)
    requires Lawful(log) && Summary(log, nextId, active) && l.id == nextId
    ensures Lawful(log + [Granted(l, deadline)])
    ensures Summary(log + [Granted(l, deadline)], nextId + 1, Some((l, deadline)))
  {
    var e := Granted(l, deadline);
    var next := log + [e];
    SameBefore(log, e, |log|, nextId);
    assert next[|log|] == e && next[..|log|] == log;
    Extend(log, e);
    NeverEnded(log, nextId);
  }

  /** An id at or above every granted one has not ended. */
  lemma NeverEnded(log: seq<Event>, id: nat)
    requires Lawful(log) && GrantsBelow(log, |log|, id)
    ensures !EndedBefore(log, |log|, id)
  {
    forall i | 0 <= i < |log| && log[i].Ended? ensures Id(log[i]) < id {
      assert LawfulAt(log, i);
    }
  }

  lemma RenewStep(log: seq<Event>, nextId: nat, l: LogicalLease, was: nat, deadline: nat)
    requires Lawful(log) && Summary(log, nextId, Some((l, was)))
    ensures Lawful(log + [Renewed(l.id, deadline)])
    ensures Summary(log + [Renewed(l.id, deadline)], nextId, Some((l, deadline)))
  {
    var e := Renewed(l.id, deadline);
    var next := log + [e];
    SameBefore(log, e, |log|, nextId);
    SameBefore(log, e, |log|, l.id);
    assert next[|log|] == e && next[..|log|] == log;
    Extend(log, e);
  }

  lemma EndStep(log: seq<Event>, nextId: nat, l: LogicalLease, deadline: nat, expired: bool, at: nat)
    requires Lawful(log) && Summary(log, nextId, Some((l, deadline))) && (expired ==> deadline <= at)
    ensures Lawful(log + [Ended(l.id, expired, at)])
    ensures Summary(log + [Ended(l.id, expired, at)], nextId, None)
  {
    var e := Ended(l.id, expired, at);
    var next := log + [e];
    SameBefore(log, e, |log|, nextId);
    SameBefore(log, e, |log|, l.id);
    assert next[|log|] == e && next[..|log|] == log;
    Extend(log, e);
  }

  /** What a book holds at one moment. */
  datatype Book = Book(nextId: nat, pending: Option<Pending>, active: Option<(LogicalLease, nat)>, log: seq<Event>)

  class LeaseBook {
    const capacity: nat
    /** The last representable instant. */
    const lastInstant: nat
    var nextId: nat
    var pending: Option<Pending>
    var active: Option<(LogicalLease, nat)>
    ghost var log: seq<Event>

    constructor (capacity: nat, lastInstant: nat)
      ensures Valid() && this.capacity == capacity && pending.None? && active.None? && log == []
    {
      this.capacity, this.lastInstant, nextId, pending, active, log := capacity, lastInstant, 1, None, None, [];
    }

    /** Never both pending and active; requests and leases fit; the history is lawful. */
    ghost predicate Valid()
      reads this
    {
      && !(pending.Some? && active.Some?)
      && (pending.Some? ==> 0 < pending.value.bytes <= capacity)
      && (active.Some? ==> 0 < active.value.0.bytes <= capacity)
      && nextId <= U32_MAX && Lawful(log) && Summary(log, nextId, active)
    }

    ghost function Now(): Book
      reads this
    {
      Book(nextId, pending, active, log)
    }

    /** Nothing about the book has changed. */
    twostate predicate Untouched()
      reads this
    {
      nextId == old(nextId) && pending == old(pending) && active == old(active) && log == old(log)
    }

    method BeginRequest(holder: TenantId, bytes: nat) returns (r: Result<Pending, Deny>)
      requires Valid()
      modifies this
      ensures Valid()
      ensures r.Ok? <==> 0 < bytes <= capacity && old(pending).None? && old(active).None?
      ensures r.Ok? ==>
                && pending == Some(Pending(holder, bytes)) && active == old(active) && nextId == old(nextId)
                && log == old(log)
      ensures r.Err? ==>
                && Untouched()
                && r.error == if bytes == 0 then ZeroBytes else if bytes > capacity then Deny.OverCapacity
                   else AlreadyHeld
    {
      if bytes == 0 {
        return Err(ZeroBytes);
      }
      if bytes > capacity {
        return Err(Deny.OverCapacity);
      }
      if pending.Some? || active.Some? {
        return Err(AlreadyHeld);
      }
      pending := Some(Pending(holder, bytes));
      return Ok(pending.value);
    }

    /** Turns the pending request into a lease, or changes nothing. */
    method GrantPending(granted: nat, now: nat, ttl: nat) returns (r: Result<LogicalLease, Deny>)
      requires Valid()
      modifies this
      ensures Valid()
      ensures r.Ok? <==> 0 < ttl && now + ttl <= lastInstant && old(pending).Some? && old(nextId) < U32_MAX &&
                         old(pending).value.bytes <= granted <= capacity
      ensures r.Ok? ==> r.value == LogicalLease(old(nextId), old(pending).value.holder, granted)
      ensures r.Ok? ==> pending.None? && nextId == old(nextId) + 1 && active == Some((r.value, now + ttl)) &&
                        log == old(log) + [Granted(r.value, now + ttl)]
      ensures r.Err? ==>
                && Untouched()
                && (r.error == InsufficientGrant ==>
                      old(pending).Some? && !(old(pending).value.bytes <= granted <= capacity))
      ensures r.Err? && 0 < ttl && now + ttl <= lastInstant ==> r.error != InvalidTtl && r.error != DeadlineOverflow
      ensures r.Err? && r.error == LeaseIdExhausted ==> old(nextId) == U32_MAX
    {
      if ttl == 0 {
        return Err(InvalidTtl);
      }
      if now + ttl > lastInstant {
        return Err(DeadlineOverflow);
      }
      if pending.None? {
        return Err(WrongLease);
      }
      if granted < pending.value.bytes || granted > capacity {
        return Err(InsufficientGrant);
      }
      if nextId + 1 > U32_MAX {
        return Err(LeaseIdExhausted);
      }
      var lease := LogicalLease(nextId, pending.value.holder, granted);
      GrantStep(log, nextId, active, lease, now + ttl);
      nextId, pending, active := nextId + 1, None, Some((lease, now + ttl));
      log := log + [Granted(lease, now + ttl)];
      return Ok(lease);
    }

    /** Extends the active lease for its own holder only. */
    method RenewActive(holder: TenantId, now: nat, ttl: nat) returns (ok: bool)
      requires Valid()
      modifies this
      ensures Valid()
      ensures ok <==> 0 < ttl && now + ttl <= lastInstant && old(active).Some? && old(active).value.0.holder == holder
      ensures ok ==>
                && active == Some((old(active).value.0, now + ttl)) && pending == old(pending) && nextId == old(nextId)
                && log == old(log) + [Renewed(old(active).value.0.id, now + ttl)]
      ensures !ok ==> Untouched()
    {
      if ttl == 0 || now + ttl > lastInstant || active.None? || active.value.0.holder != holder {
        return false;
      }
      RenewStep(log, nextId, active.value.0, active.value.1, now + ttl);
      log := log + [Renewed(active.value.0.id, now + ttl)];
      active := Some((active.value.0, now + ttl));
      return true;
    }

    /** Ends the active lease if its deadline has come. */
    method Expire(now: nat) returns (r: Option<LogicalLease>)
      requires Valid()
      modifies this
      ensures Valid()
      ensures r.Some? <==> old(active).Some? && old(active).value.1 <= now
      ensures r.Some? ==>
                && r.value == old(active).value.0 && active.None? && pending == old(pending) && nextId == old(nextId)
                && log == old(log) + [Ended(r.value.id, true, now)]
      ensures r.None? ==> Untouched()
    {
      if active.None? || now < active.value.1 {
        return None;
      }
      var lease := active.value.0;
      EndStep(log, nextId, lease, active.value.1, true, now);
      active, log := None, log + [Ended(lease.id, true, now)];
      return Some(lease);
    }

    method CancelPending(holder: TenantId) returns (ok: bool)
      requires Valid()
      modifies this
      ensures Valid()
      ensures ok <==> old(pending).Some? && old(pending).value.holder == holder
      ensures ok ==> pending.None? && active == old(active) && nextId == old(nextId) && log == old(log)
      ensures !ok ==> Untouched()
    {
      ok := pending.Some? && pending.value.holder == holder;
      if ok {
        pending := None;
      }
    }

    /** Withdraws the holder's pending request; an active lease is reported and kept until it expires. */
    method Disconnect(holder: TenantId) returns (cancelled: bool, retained: Option<LogicalLease>)
      requires Valid()
      modifies this
      ensures Valid() && active == old(active) && nextId == old(nextId) && log == old(log)
      ensures cancelled <==> old(pending).Some? && old(pending).value.holder == holder
      ensures pending == if cancelled then None else old(pending)
      ensures retained == if old(active).Some? && old(active).value.0.holder == holder then Some(old(active).value.0)
              else None
    {
      cancelled := CancelPending(holder);
      retained := if active.Some? && active.value.0.holder == holder then Some(active.value.0) else None;
    }

    /** Ends the active lease at its holder's request. */
    method Release(holder: TenantId, lease: nat, now: nat) returns (r: Result<bool, Deny>)
      requires Valid()
      modifies this
      ensures Valid()
      ensures r == Ok(false) <==> old(active).None?
      ensures r == Ok(true) <==>
                old(active).Some? && old(active).value.0.holder == holder && old(active).value.0.id == lease
      ensures r == Err(WrongHolder) <==> old(active).Some? && old(active).value.0.holder != holder
      ensures r == Ok(true) ==> active.None? && pending == old(pending) && nextId == old(nextId) &&
                                log == old(log) + [Ended(lease, false, now)]
      ensures r != Ok(true) ==> Untouched()
    {
      if active.None? {
        return Ok(false);
      }
      if active.value.0.holder != holder {
        return Err(WrongHolder);
      }
      if active.value.0.id != lease {
        return Err(WrongLease);
      }
      EndStep(log, nextId, active.value.0, active.value.1, false, now);
      active, log := None, log + [Ended(lease, false, now)];
      return Ok(true);
    }
  }
}
