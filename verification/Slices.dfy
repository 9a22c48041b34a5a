/** VRAM slices: the layout check, and the slice-to-tenant map as a state machine. */
module Slices {
  import opened Bytes
  import opened Arithmetic

  const MAX_SLICES: nat := 256
  const PAGE: nat := 4096

  type TenantId = nat
  type SliceId = nat

  datatype SliceState = Free | Active | Draining | Leased

  datatype Slice = Slice(id: SliceId, offset: nat, len: nat, tenant: Option<TenantId>, state: SliceState) {
    function End(): nat { offset + len }
  }

  // ---------------------------------------------------------------- the layout check

  datatype LayoutError = ZeroLength | OffsetUnaligned | LengthUnaligned | OverCapacity | Overlap | Gap

  predicate SliceFits(s: Slice, capacity: nat) {
    0 < s.len && s.offset % PAGE == 0 && s.len % PAGE == 0 && s.End() <= capacity
  }

  ghost predicate Covered(m: multiset<Slice>, x: int) {
    exists s :: s in m && s.offset <= x < s.End()
  }

  /** Order-free: no slice is listed twice, no two overlap, and together they cover exactly one interval. */
  ghost predicate Tiles(m: multiset<Slice>) {
    && (forall s :: s in m ==> m[s] == 1)
    && (forall a, b :: a in m && b in m && a != b ==> a.End() <= b.offset || b.End() <= a.offset)
    && (exists lo: int, hi: int :: ExactInterval(m, lo, hi))
  }

  ghost predicate ExactInterval(m: multiset<Slice>, lo: int, hi: int) {
    forall x: int :: lo <= x < hi <==> Covered(m, x)
  }

  /** What `validate_layout` accepts: aligned, nonempty, in-capacity slices that tile one interval. */
  ghost predicate LayoutOk(m: multiset<Slice>, capacity: nat) {
    (forall s :: s in m ==> SliceFits(s, capacity)) && Tiles(m)
  }

  ghost predicate SortedByOffset(s: seq<Slice>) {
    forall i, j :: 0 <= i < j < |s| ==> s[i].offset <= s[j].offset
  }

  /** Every slice starts where the one before it ends. */
  ghost predicate Contiguous(s: seq<Slice>) {
    forall i :: 0 < i < |s| ==> s[i - 1].End() == s[i].offset
  }

  lemma {:induction false} InOrder(s: seq<Slice>, i: nat, j: nat)
    requires Contiguous(s) && (forall k :: 0 <= k < |s| ==> 0 < s[k].len) && i < j < |s|
    ensures s[i].End() <= s[j].offset
  {
    if i + 1 < j {
      InOrder(s, i, j - 1);
    }
  }

  lemma {:induction false} Twice(s: seq<Slice>, a: Slice)
    requires multiset(s)[a] >= 2
    ensures exists i, j :: 0 <= i < j < |s| && s[i] == a && s[j] == a
  {
    var n := |s| - 1;
    assert s == s[..n] + [s[n]];
    if s[n] == a {
      assert a in multiset(s[..n]);
      var i :| 0 <= i < n && s[i] == a;
    } else {
      Twice(s[..n], a);
      var i, j :| 0 <= i < j < n && s[..n][i] == a && s[..n][j] == a;
      assert s[i] == a && s[j] == a;
    }
  }

  lemma {:induction false} Reach(s: seq<Slice>, x: int, n: nat)
    requires Contiguous(s) && n < |s| && s[0].offset <= x < s[n].End()
    ensures exists i :: 0 <= i <= n && s[i].offset <= x < s[i].End()
  {
    if x < s[n].offset {
      assert 0 < n;
      Reach(s, x, n - 1);
    }
  }

  /** Contiguous nonempty slices tile. */
  lemma ContiguousTiles(s: seq<Slice>)
    requires Contiguous(s) && forall k :: 0 <= k < |s| ==> 0 < s[k].len
    ensures Tiles(multiset(s))
  {
    var m := multiset(s);
    forall a | a in m ensures m[a] == 1 {
      if m[a] >= 2 {
        Twice(s, a);
        var i, j :| 0 <= i < j < |s| && s[i] == a && s[j] == a;
        InOrder(s, i, j);
      }
    }
    forall a, b | a in m && b in m && a != b ensures a.End() <= b.offset || b.End() <= a.offset {
      var i :| 0 <= i < |s| && s[i] == a;
      var j :| 0 <= j < |s| && s[j] == b;
      if i < j {
        InOrder(s, i, j);
      } else {
        InOrder(s, j, i);
      }
    }
    if s == [] {
      assert ExactInterval(m, 0, 0);
    } else {
      IntervalOf(s);
    }
  }

  lemma IntervalOf(s: seq<Slice>)
    requires s != [] && Contiguous(s) && forall k :: 0 <= k < |s| ==> 0 < s[k].len
    ensures ExactInterval(multiset(s), s[0].offset, s[|s| - 1].End())
  {
    forall x: int ensures s[0].offset <= x < s[|s| - 1].End() <==> Covered(multiset(s), x) {
      if s[0].offset <= x < s[|s| - 1].End() {
        InsideCovered(s, x);
      } else if Covered(multiset(s), x) {
        CoveredInside(s, x);
      }
    }
  }

  lemma InsideCovered(s: seq<Slice>, x: int)
    requires s != [] && Contiguous(s) && s[0].offset <= x < s[|s| - 1].End()
    ensures Covered(multiset(s), x)
  {
    Reach(s, x, |s| - 1);
    var i :| 0 <= i <= |s| - 1 && s[i].offset <= x < s[i].End();
    assert s[i] in multiset(s);
  }

  lemma CoveredInside(s: seq<Slice>, x: int)
    requires s != [] && Contiguous(s) && (forall k :: 0 <= k < |s| ==> 0 < s[k].len) && Covered(multiset(s), x)
    ensures s[0].offset <= x < s[|s| - 1].End()
  {
    var a :| a in multiset(s) && a.offset <= x < a.End();
    var i :| 0 <= i < |s| && s[i] == a;
    if 0 < i {
      InOrder(s, 0, i);
    }
    if i < |s| - 1 {
      InOrder(s, i, |s| - 1);
    }
  }

  lemma Repeated(s: seq<Slice>, i: nat, j: nat)
    requires i < j < |s| && s[i] == s[j]
    ensures multiset(s)[s[i]] >= 2
  {
    assert s == s[..j] + s[j..] && s[i] in s[..j] && s[j] in s[j..];
    assert multiset(s) == multiset(s[..j]) + multiset(s[j..]);
  }

  /** A stable insertion sort by offset. */
  method SortByOffset(slices: seq<Slice>) returns (sorted: seq<Slice>)
    ensures SortedByOffset(sorted) && multiset(sorted) == multiset(slices)
  {
    sorted := [];
    for i := 0 to |slices|
      invariant SortedByOffset(sorted) && multiset(sorted) == multiset(slices[..i])
    {
      assert slices[..i + 1] == slices[..i] + [slices[i]];
      sorted := InsertByOffset(sorted, slices[i]);
    }
    assert slices[..|slices|] == slices;
  }

  method InsertByOffset(sorted: seq<Slice>, s: Slice) returns (after: seq<Slice>)
    requires SortedByOffset(sorted)
    ensures SortedByOffset(after) && multiset(after) == multiset(sorted) + multiset{s}
  {
    var j := 0;
    while j < |sorted| && sorted[j].offset <= s.offset
      invariant 0 <= j <= |sorted|
      invariant forall k :: 0 <= k < j ==> sorted[k].offset <= s.offset
    {
      j := j + 1;
    }
    after := sorted[..j] + [s] + sorted[j..];
    InsertedSorted(sorted, j, s);
    InsertedOnce(sorted, j, s);
  }

  lemma InsertedSorted(sorted: seq<Slice>, j: nat, s: Slice)
    requires SortedByOffset(sorted) && j <= |sorted| && (j < |sorted| ==> s.offset < sorted[j].offset)
    requires forall k :: 0 <= k < j ==> sorted[k].offset <= s.offset
    ensures SortedByOffset(sorted[..j] + [s] + sorted[j..])
  {
    var after := sorted[..j] + [s] + sorted[j..];
    forall a, b | 0 <= a < b < |after| ensures after[a].offset <= after[b].offset {
      assert after[a] == if a < j then sorted[a] else if a == j then s else sorted[a - 1];
      assert after[b] == if b < j then sorted[b] else if b == j then s else sorted[b - 1];
    }
  }

  lemma InsertedOnce(sorted: seq<Slice>, j: nat, s: Slice)
    requires j <= |sorted|
    ensures multiset(sorted[..j] + [s] + sorted[j..]) == multiset(sorted) + multiset{s}
  {
    assert sorted == sorted[..j] + sorted[j..];
  }

  /** Two entries share a byte. */
  ghost predicate Overlapping(m: multiset<Slice>) {
    exists a, b :: a in m && b in m && (a != b || m[a] >= 2) && a.offset < b.End() && b.offset < a.End()
  }

  /** Some byte between two slices belongs to none. */
  ghost predicate HasGap(m: multiset<Slice>) {
    exists a, b :: a in m && b in m && a.End() < b.offset && !Covered(m, a.End())
  }

  lemma OverlapFound(s: seq<Slice>, i: nat)
    requires SortedByOffset(s) && 0 < i < |s| && s[i].offset < s[i - 1].End() && 0 < s[i].len
    ensures Overlapping(multiset(s))
  {
    var m := multiset(s);
    assert s[i - 1] in m && s[i] in m;
    if s[i - 1] == s[i] {
      Repeated(s, i - 1, i);
    }
  }

  lemma GapFound(s: seq<Slice>, i: nat)
    requires SortedByOffset(s) && 0 < i < |s| && s[i - 1].End() < s[i].offset
    requires forall k :: 0 <= k < |s| ==> 0 < s[k].len
    requires forall k :: 0 < k < i ==> s[k - 1].End() == s[k].offset
    ensures HasGap(multiset(s))
  {
    var m, x := multiset(s), s[i - 1].End();
    assert s[i - 1] in m && s[i] in m;
    forall a | a in m ensures !(a.offset <= x < a.End()) {
      var k :| 0 <= k < |s| && s[k] == a;
      if k < i - 1 {
        InOrder(s[..i], k, i - 1);
      }
    }
  }

  /** A layout with an overlap or a gap does not tile. */
  lemma FaultyNeverTiles(m: multiset<Slice>)
    requires (forall s :: s in m ==> 0 < s.len) && (Overlapping(m) || HasGap(m))
    ensures !Tiles(m)
  {
    if HasGap(m) {
      var a, b :| a in m && b in m && a.End() < b.offset && !Covered(m, a.End());
      assert Covered(m, a.offset) && Covered(m, b.offset);
    }
  }

  /** Accepts exactly the layouts above, and names the fault otherwise; which slices are listed decides the verdict,
      not their order. */
  method ValidateLayout(slices: seq<Slice>, capacity: u64) returns (r: Result<(), LayoutError>)
    ensures r.Ok? <==> LayoutOk(multiset(slices), capacity)
    ensures r.Err? && r.error != Overlap && r.error != Gap ==> exists s :: s in slices && !SliceFits(s, capacity)
    ensures r == Err(Overlap) ==> Overlapping(multiset(slices))
    ensures r == Err(Gap) ==> HasGap(multiset(slices))
  {
    for i := 0 to |slices|
      invariant forall k :: 0 <= k < i ==> SliceFits(slices[k], capacity)
    {
      var s := slices[i];
      assert s in slices && s in multiset(slices);
      if s.len == 0 {
        return Err(ZeroLength);
      }
      if s.offset % PAGE != 0 {
        return Err(OffsetUnaligned);
      }
      if s.len % PAGE != 0 {
        return Err(LengthUnaligned);
      }
      if s.End() > capacity {
        return Err(OverCapacity);
      }
    }
    if slices == [] {
      ContiguousTiles(slices);
      return Ok(());
    }
    var sorted := SortByOffset(slices);
    forall k | 0 <= k < |sorted| ensures SliceFits(sorted[k], capacity) {
      assert sorted[k] in multiset(slices);
    }
    assert sorted != [] by {
      assert slices[0] in multiset(slices);
    }
    r := CheckSorted(sorted);
    assert forall s :: s in multiset(slices) ==> s in sorted;
  }

  /** The pairwise pass over slices in offset order. */
  method CheckSorted(sorted: seq<Slice>) returns (r: Result<(), LayoutError>)
    requires sorted != [] && SortedByOffset(sorted) && forall k :: 0 <= k < |sorted| ==> 0 < sorted[k].len
    ensures r.Ok? <==> Tiles(multiset(sorted))
    ensures r.Err? ==> r.error == Overlap || r.error == Gap
    ensures r == Err(Overlap) ==> Overlapping(multiset(sorted))
    ensures r == Err(Gap) ==> HasGap(multiset(sorted))
  {
    for i := 1 to |sorted|
      invariant forall k :: 0 < k < i ==> sorted[k - 1].End() == sorted[k].offset
    {
      if sorted[i - 1].End() > sorted[i].offset {
        OverlapFound(sorted, i);
        FaultyNeverTiles(multiset(sorted));
        return Err(Overlap);
      }
      if sorted[i - 1].End() != sorted[i].offset {
        GapFound(sorted, i);
        FaultyNeverTiles(multiset(sorted));
        return Err(Gap);
      }
    }
    ContiguousTiles(sorted);
    return Ok(());
  }

  // ---------------------------------------------------------------- the slice map

  datatype SliceError = UnknownSlice | BadState(have: SliceState) | TooManySlices | CapacityExceeded | AlreadyAllocated

  /** A slice has a tenant exactly while it is in use or being drained. */
  predicate TenantFits(s: Slice) {
    s.tenant.Some? <==> s.state.Active? || s.state.Draining?
  }

  class SliceMap {
    const sliceBytes: nat
    var slices: seq<Slice>

    /** Identity, geometry and tenancy, kept by every transition. */
    ghost predicate Valid()
      reads this
    {
      && |slices| <= MAX_SLICES
      && forall i :: 0 <= i < |slices| ==>
           slices[i].id == i && slices[i].offset == i * sliceBytes && slices[i].len == sliceBytes &&
             TenantFits(slices[i])
    }

    constructor Create(k: nat, sliceBytes: nat)
      requires k <= MAX_SLICES
      ensures Valid() && this.sliceBytes == sliceBytes && |slices| == k
      ensures forall i :: 0 <= i < k ==> slices[i].state.Free?
    {
      this.sliceBytes := sliceBytes;
      slices := seq(k, i requires 0 <= i => Slice(i, i * sliceBytes, sliceBytes, None, Free));
    }

    function TotalBytes(): nat
      reads this
    {
      |slices| * sliceBytes
    }

    /** Any map of positive page-multiple slices passes the layout check of a device at least its size, whatever
        transitions it has been through. */
    lemma LayoutHolds(capacity: nat)
      requires Valid() && 0 < sliceBytes && sliceBytes % PAGE == 0 && TotalBytes() <= capacity
      ensures LayoutOk(multiset(slices), capacity)
    {
      forall i | 0 <= i < |slices| ensures SliceFits(slices[i], capacity) {
        NextMultiple(i, |slices|, sliceBytes);
        PageMultiple(i, sliceBytes);
      }
      forall i | 0 < i < |slices| ensures slices[i - 1].End() == slices[i].offset {
        OneLess(i, sliceBytes);
      }
      ContiguousTiles(slices);
    }

    /** `get_mut`: the position of a slice id. */
    method Find(id: SliceId) returns (i: Option<nat>)
      requires Valid()
      ensures i == if id < |slices| then Some(id) else None
    {
      var k := 0;
      while k < |slices|
        invariant 0 <= k <= |slices| && k <= id
      {
        if slices[k].id == id {
          return Some(k);
        }
        k := k + 1;
      }
      return None;
    }

    /** Free to Active. */
    method Assign(id: SliceId, tenant: TenantId) returns (r: Result<(), SliceError>)
      requires Valid()
      modifies this`slices
      ensures Valid()
      ensures r.Ok? <==> id < |old(slices)| && old(slices)[id].state.Free?
      ensures r.Err? ==> r.error == if id < |old(slices)| then AlreadyAllocated else UnknownSlice
      ensures slices == if r.Ok? then old(slices)[id := old(slices)[id].(state := Active, tenant := Some(tenant))]
              else old(slices)
    {
      var i := Find(id);
      if i.None? {
        return Err(UnknownSlice);
      }
      if slices[id].state != Free {
        return Err(AlreadyAllocated);
      }
      slices := slices[id := slices[id].(state := Active, tenant := Some(tenant))];
      return Ok(());
    }

    /** Active to Draining. */
    method Drain(id: SliceId) returns (r: Result<(), SliceError>)
      requires Valid()
      modifies this`slices
      ensures Valid()
      ensures r.Ok? <==> id < |old(slices)| && old(slices)[id].state.Active?
      ensures r.Err? ==> r.error == if id < |old(slices)| then BadState(old(slices)[id].state) else UnknownSlice
      ensures slices == if r.Ok? then old(slices)[id := old(slices)[id].(state := Draining)] else old(slices)
    {
      var i := Find(id);
      if i.None? {
        return Err(UnknownSlice);
      }
      if slices[id].state != Active {
        return Err(BadState(slices[id].state));
      }
      slices := slices[id := slices[id].(state := Draining)];
      return Ok(());
    }

    /** Draining to Free. */
    method Release(id: SliceId) returns (r: Result<(), SliceError>)
      requires Valid()
      modifies this`slices
      ensures Valid()
      ensures r.Ok? <==> id < |old(slices)| && old(slices)[id].state.Draining?
      ensures r.Err? ==> r.error == if id < |old(slices)| then BadState(old(slices)[id].state) else UnknownSlice
      ensures slices == if r.Ok? then old(slices)[id := old(slices)[id].(state := Free, tenant := None)]
              else old(slices)
    {
      var i := Find(id);
      if i.None? {
        return Err(UnknownSlice);
      }
      if slices[id].state != Draining {
        return Err(BadState(slices[id].state));
      }
      slices := slices[id := slices[id].(state := Free, tenant := None)];
      return Ok(());
    }

    /** Free to Leased; no tenant is recorded. */
    method Lease(id: SliceId) returns (r: Result<(), SliceError>)
      requires Valid()
      modifies this`slices
      ensures Valid()
      ensures r.Ok? <==> id < |old(slices)| && old(slices)[id].state.Free?
      ensures r.Err? ==> r.error == if id < |old(slices)| then AlreadyAllocated else UnknownSlice
      ensures slices == if r.Ok? then old(slices)[id := old(slices)[id].(state := Leased)] else old(slices)
    {
      var i := Find(id);
      if i.None? {
        return Err(UnknownSlice);
      }
      if slices[id].state != Free {
        return Err(AlreadyAllocated);
      }
      slices := slices[id := slices[id].(state := Leased)];
      return Ok(());
    }

    /** Leased to Free. */
    method Unlease(id: SliceId) returns (r: Result<(), SliceError>)
      requires Valid()
      modifies this`slices
      ensures Valid()
      ensures r.Ok? <==> id < |old(slices)| && old(slices)[id].state.Leased?
      ensures r.Err? ==> r.error == if id < |old(slices)| then BadState(old(slices)[id].state) else UnknownSlice
      ensures slices == if r.Ok? then old(slices)[id := old(slices)[id].(state := Free)] else old(slices)
    {
      var i := Find(id);
      if i.None? {
        return Err(UnknownSlice);
      }
      if slices[id].state != Leased {
        return Err(BadState(slices[id].state));
      }
      slices := slices[id := slices[id].(state := Free)];
      return Ok(());
    }
  }

  lemma PageMultiple(i: nat, sliceBytes: nat)
    requires sliceBytes % PAGE == 0
    ensures i * sliceBytes % PAGE == 0
  {
    var q := sliceBytes / PAGE;
    assert i * sliceBytes == PAGE * (i * q);
  }

  /** `SliceMap::new`: all free, contiguous from zero, refused when too many or too large. */
  method NewSliceMap(k: nat, sliceBytes: nat, backing: u64) returns (r: Result<SliceMap, SliceError>)
    ensures r.Ok? <==> k <= MAX_SLICES && k * sliceBytes <= backing
    ensures r.Ok? ==> fresh(r.value) && r.value.Valid() && r.value.sliceBytes == sliceBytes && |r.value.slices| == k &&
                      forall i :: 0 <= i < k ==> r.value.slices[i].state.Free?
    ensures r.Ok? && 0 < sliceBytes && sliceBytes % PAGE == 0 ==> LayoutOk(multiset(r.value.slices), backing)
  {
    if k > MAX_SLICES {
      return Err(TooManySlices);
    }
    if k * sliceBytes > backing {
      return Err(CapacityExceeded);
    }
    var m := new SliceMap.Create(k, sliceBytes);
    if 0 < sliceBytes && sliceBytes % PAGE == 0 {
      m.LayoutHolds(backing);
    }
    return Ok(m);
  }
}
