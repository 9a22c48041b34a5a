/** Laws of the arbiter over whole runs: what its history of non-lease ticks must look like, and round-robin
    fairness. */
module ArbiterLaw {
  import opened Bytes
  import opened Arithmetic
  import opened Slices

  datatype Config = Config(deltaPsi: real, streak: nat, cooldown: nat, psiFloor: real, cfWindow: nat, cfFactor: real,
                           cfCooldown: nat)

  /** The one slice movement a tick may decide on. */
  datatype Shift =
    | Moved(slice: SliceId, from: TenantId, to: TenantId, donorPsi: real, donorSlices: nat)
    | Reverted(slice: SliceId, from: TenantId, to: TenantId, ownerPsi: real)

  /** One non-lease tick: whether the pressure differential was over the threshold, and the movement decided. */
  datatype Entry = Entry(now: nat, over: bool, shift: Option<Shift>)

  /** Position of the latest movement. */
  function LastShift(log: seq<Entry>): Option<nat> {
    if log == [] then None
    else if log[|log| - 1].shift.Some? then Some(|log| - 1)
    else LastShift(log[..|log| - 1])
  }

  lemma {:induction false} LastShiftMeans(log: seq<Entry>)
    ensures LastShift(log).None? ==> forall i :: 0 <= i < |log| ==> log[i].shift.None?
    ensures LastShift(log).Some? ==> var j := LastShift(log).value;
              j < |log| && log[j].shift.Some? && forall i :: j < i < |log| ==> log[i].shift.None?
  {
    if log != [] {
      LastShiftMeans(log[..|log| - 1]);
    }
  }

  function CooldownOf(cfg: Config, s: Shift): nat {
    if s.Moved? then cfg.cooldown else cfg.cfCooldown
  }

  /** A move at `i`: the full streak of over-threshold ticks, none of them already spent on a move; the cooldown of
      the latest movement is over; and it does not take the last slice of a donor above the floor. */
  ghost predicate MoveLawful(cfg: Config, log: seq<Entry>, i: nat)
    requires i < |log| && log[i].shift.Some? && log[i].shift.value.Moved?
  {
    var s := log[i].shift.value;
    && cfg.streak <= i + 1
    && (forall k :: i + 1 - cfg.streak <= k <= i ==>
          log[k].over && (k < i ==> !(log[k].shift.Some? && log[k].shift.value.Moved?)))
    && (LastShift(log[..i]).Some? ==> var j := LastShift(log[..i]).value;
          j < i && log[j].shift.Some? && log[j].now + CooldownOf(cfg, log[j].shift.value) <= log[i].now)
    && (s.donorPsi <= cfg.psiFloor || 2 <= s.donorSlices) && s.from != s.to
  }

  /** A revert at `i`: the exact inverse of the latest movement, which was a move, within its window, because the
      original owner's pressure has grown past the factor and the floor. */
  ghost predicate RevertLawful(cfg: Config, log: seq<Entry>, i: nat)
    requires i < |log| && log[i].shift.Some? && log[i].shift.value.Reverted?
  {
    var s := log[i].shift.value;
    LastShift(log[..i]).Some? && var j := LastShift(log[..i]).value;
      && j < i && log[j].shift.Some? && log[j].shift.value.Moved?
      && (var m := log[j].shift.value;
          && s.slice == m.slice && s.from == m.to && s.to == m.from
          && SatSub(log[i].now, log[j].now) <= cfg.cfWindow
          && s.ownerPsi > cfg.cfFactor * m.donorPsi && s.ownerPsi > cfg.psiFloor)
  }

  ghost predicate EntryLawful(cfg: Config, log: seq<Entry>, i: nat)
    requires i < |log|
  {
    log[i].shift.Some? ==> if log[i].shift.value.Moved? then MoveLawful(cfg, log, i) else RevertLawful(cfg, log, i)
  }

  ghost predicate Lawful(cfg: Config, log: seq<Entry>) {
    forall i :: 0 <= i < |log| ==> EntryLawful(cfg, log, i)
  }

  /** A move is reverted at most once: between a move and its revert there is no other movement. */
  lemma RevertedOnce(cfg: Config, log: seq<Entry>, j: nat, a: nat, b: nat)
    requires Lawful(cfg, log) && j < a < b < |log|
    requires log[a].shift.Some? && log[a].shift.value.Reverted? && log[b].shift.Some? && log[b].shift.value.Reverted?
    requires log[j].shift.Some? && log[j].shift.value.Moved?
    ensures LastShift(log[..b]) != Some(j)
    ensures exists k :: a < k < b && log[k].shift.Some? && log[k].shift.value.Moved? && LastShift(log[..b]) == Some(k)
  {
    assert EntryLawful(cfg, log, b) && RevertLawful(cfg, log, b);
    LastShiftMeans(log[..b]);
    var k := LastShift(log[..b]).value;
    assert log[..b][a] == log[a];
    assert a <= k < b && log[k].shift.value.Moved?;
  }

  datatype MoveRecord = MoveRecord(slice: SliceId, from: TenantId, to: TenantId, at: nat, fromPsi: real)

  /** The record describes the movement at the given entry. */
  predicate Describes(r: MoveRecord, e: Entry) {
    && e.shift.Some? && e.shift.value.Moved? && e.now == r.at
    && e.shift.value.slice == r.slice && e.shift.value.from == r.from && e.shift.value.to == r.to
    && e.shift.value.donorPsi == r.fromPsi
  }

  predicate IsMove(e: Entry) {
    e.shift.Some? && e.shift.value.Moved?
  }

  predicate IsRevert(e: Entry) {
    e.shift.Some? && e.shift.value.Reverted?
  }

  /** The record of a move. */
  function RecordOf(e: Entry): MoveRecord
    requires IsMove(e)
  {
    var s := e.shift.value;
    MoveRecord(s.slice, s.from, s.to, e.now, s.donorPsi)
  }

  /** The unspent over-threshold ticks at the end of the history: a move spends them, a revert the earlier ones. */
  function StreakOf(log: seq<Entry>): nat {
    if log == [] then 0
    else
      var e := log[|log| - 1];
      if IsMove(e) || !e.over then 0
      else if IsRevert(e) then 1
      else StreakOf(log[..|log| - 1]) + 1
  }

  /** The move that may still be taken back: the latest movement, while every tick since lay within its window. */
  function OpenMove(cfg: Config, log: seq<Entry>): Option<MoveRecord> {
    if log == [] then None
    else
      var e := log[|log| - 1];
      if IsMove(e) then Some(RecordOf(e))
      else if IsRevert(e) then None
      else
        var r := OpenMove(cfg, log[..|log| - 1]);
        if r.Some? && SatSub(e.now, r.value.at) > cfg.cfWindow then None else r
  }

  /** When the cooldown of the latest movement ends. */
  function CooldownEnd(cfg: Config, log: seq<Entry>): Option<nat> {
    if log == [] then None
    else
      var e := log[|log| - 1];
      if e.shift.Some? then Some(e.now + CooldownOf(cfg, e.shift.value)) else CooldownEnd(cfg, log[..|log| - 1])
  }

  /** The arbiter's fields are functions of the history. */
  ghost predicate Summary(cfg: Config, log: seq<Entry>, streak: nat, lastMove: Option<MoveRecord>,
                          cooldownUntil: Option<nat>)
  {
    streak == StreakOf(log) && lastMove == OpenMove(cfg, log) && cooldownUntil == CooldownEnd(cfg, log)
  }

  /** Read over the history: the streak is at least `n` exactly when the last `n` ticks were over the threshold, none
      of them moved, and only the first of them may have reverted. */
  lemma {:induction false} StreakExactly(log: seq<Entry>, n: nat)
    ensures StreakOf(log) <= |log|
    ensures n <= StreakOf(log) <==>
              && n <= |log|
              && forall k :: |log| - n <= k < |log| ==>
                   log[k].over && !IsMove(log[k]) && (|log| - n < k ==> !IsRevert(log[k]))
  {
    if log != [] {
      var m := |log| - 1;
      StreakExactly(log[..m], if n == 0 then 0 else n - 1);
      if 0 < n <= |log| {
        assert forall k :: 0 <= k < m ==> log[..m][k] == log[k];
        if n <= StreakOf(log) && n == 1 {
          assert log[m].over && !IsMove(log[m]);
        }
      }
    }
  }

  /** A move can be taken back exactly when it is the latest movement and every tick since lay within its window. */
  lemma {:induction false} OpenMoveExactly(cfg: Config, log: seq<Entry>, r: MoveRecord)
    ensures OpenMove(cfg, log) == Some(r) <==>
              && LastShift(log).Some? && LastShift(log).value < |log| && Describes(r, log[LastShift(log).value])
              && forall k :: LastShift(log).value < k < |log| ==> SatSub(log[k].now, r.at) <= cfg.cfWindow
  {
    if log != [] {
      var m := |log| - 1;
      OpenMoveExactly(cfg, log[..m], r);
      LastShiftMeans(log[..m]);
      assert forall k :: 0 <= k < m ==> log[..m][k] == log[k];
    }
  }

  lemma {:induction false} CooldownExactly(cfg: Config, log: seq<Entry>)
    ensures LastShift(log).None? ==> CooldownEnd(cfg, log).None?
    ensures LastShift(log).Some? ==>
              var j := LastShift(log).value;
              && j < |log| && log[j].shift.Some?
              && CooldownEnd(cfg, log) == Some(log[j].now + CooldownOf(cfg, log[j].shift.value))
  {
    if log != [] {
      CooldownExactly(cfg, log[..|log| - 1]);
    }
  }

  /** Appending a lawful entry. */
  lemma LawfulExtend(cfg: Config, log: seq<Entry>, e: Entry)
    requires Lawful(cfg, log) && EntryLawful(cfg, log + [e], |log|)
    ensures Lawful(cfg, log + [e])
  {
    var next := log + [e];
    forall i | 0 <= i < |next| ensures EntryLawful(cfg, next, i) {
      if i < |log| {
        assert EntryLawful(cfg, log, i) && next[..i] == log[..i];
        LastShiftMeans(log[..i]);
      }
    }
  }

  /** One more tick. */
  lemma SummaryStep(cfg: Config, log: seq<Entry>, e: Entry)
    ensures StreakOf(log + [e]) ==
              if IsMove(e) || !e.over then 0 else if IsRevert(e) then 1 else StreakOf(log) + 1
    ensures OpenMove(cfg, log + [e]) ==
              if IsMove(e) then Some(RecordOf(e))
              else if IsRevert(e) || Closed(cfg, OpenMove(cfg, log), e.now) then None
              else OpenMove(cfg, log)
    ensures CooldownEnd(cfg, log + [e]) ==
              if e.shift.Some? then Some(e.now + CooldownOf(cfg, e.shift.value)) else CooldownEnd(cfg, log)
  {
    assert (log + [e])[..|log|] == log;
  }

  /** The window of the open move is over. */
  predicate Closed(cfg: Config, r: Option<MoveRecord>, now: nat) {
    r.Some? && SatSub(now, r.value.at) > cfg.cfWindow
  }

  /** A tick without movement. */
  lemma QuietTick(cfg: Config, log: seq<Entry>, streak: nat, lastMove: Option<MoveRecord>, cooldownUntil: Option<nat>,
                  now: nat, over: bool)
    requires Lawful(cfg, log) && Summary(cfg, log, streak, lastMove, cooldownUntil)
    ensures Lawful(cfg, log + [Entry(now, over, None)])
    ensures Summary(cfg, log + [Entry(now, over, None)], if over then streak + 1 else 0,
                    if Closed(cfg, lastMove, now) then None else lastMove, cooldownUntil)
  {
    LawfulExtend(cfg, log, Entry(now, over, None));
    SummaryStep(cfg, log, Entry(now, over, None));
  }

  /** A tick that moves. */
  lemma MoveTick(cfg: Config, log: seq<Entry>, streak: nat, lastMove: Option<MoveRecord>, cooldownUntil: Option<nat>,
                 now: nat, over: bool, s: Shift)
    requires Lawful(cfg, log) && Summary(cfg, log, streak, lastMove, cooldownUntil)
    requires s.Moved? && cfg.streak <= (if over then streak + 1 else 0)
    requires (cooldownUntil.Some? ==> cooldownUntil.value <= now)
    requires (s.donorPsi <= cfg.psiFloor || 2 <= s.donorSlices) && s.from != s.to
    ensures Lawful(cfg, log + [Entry(now, over, Some(s))])
    ensures Summary(cfg, log + [Entry(now, over, Some(s))], 0, Some(MoveRecord(s.slice, s.from, s.to, now, s.donorPsi)),
                    Some(now + cfg.cooldown))
  {
    var e := Entry(now, over, Some(s));
    SummaryStep(cfg, log, e);
    StreakCovers(cfg, log, e);
    CooldownExactly(cfg, log);
    assert (log + [e])[..|log|] == log;
    assert MoveLawful(cfg, log + [e], |log|);
    LawfulExtend(cfg, log, e);
  }

  /** A streak that is long enough covers the ticks a move needs. */
  lemma StreakCovers(cfg: Config, log: seq<Entry>, e: Entry)
    requires cfg.streak <= if e.over then StreakOf(log) + 1 else 0
    ensures cfg.streak <= |log| + 1
    ensures forall k :: |log| + 1 - cfg.streak <= k <= |log| ==>
              (log + [e])[k].over && (k < |log| ==> !IsMove((log + [e])[k]))
  {
    StreakExactly(log, if cfg.streak == 0 then 0 else cfg.streak - 1);
  }

  /** A tick that takes the latest move back. */
  lemma RevertTick(cfg: Config, log: seq<Entry>, streak: nat, r: MoveRecord, cooldownUntil: Option<nat>, now: nat,
                   over: bool, psi: real)
    requires Lawful(cfg, log) && Summary(cfg, log, streak, Some(r), cooldownUntil)
    requires SatSub(now, r.at) <= cfg.cfWindow && psi > cfg.cfFactor * r.fromPsi && psi > cfg.psiFloor
    ensures var next := log + [Entry(now, over, Some(Reverted(r.slice, r.to, r.from, psi)))];
            Lawful(cfg, next) && Summary(cfg, next, if over then 1 else 0, None, Some(now + cfg.cfCooldown))
  {
    var e := Entry(now, over, Some(Reverted(r.slice, r.to, r.from, psi)));
    SummaryStep(cfg, log, e);
    OpenMoveExactly(cfg, log, r);
    assert (log + [e])[..|log|] == log;
    assert RevertLawful(cfg, log + [e], |log|);
    LawfulExtend(cfg, log, e);
  }

  // ---------------------------------------------------------------- round-robin fairness

  ghost predicate Distinct(ids: seq<TenantId>) {
    forall i, j :: 0 <= i < j < |ids| ==> ids[i] != ids[j]
  }

  /** Assignments that follow the cursor: the j-th goes to the tenant the cursor points at. */
  ghost predicate RoundRobin(ids: seq<TenantId>, cursor: nat, given: seq<TenantId>) {
    ids != [] && forall j :: 0 <= j < |given| ==> given[j] == ids[Wrap(cursor + j, |ids|)]
  }

  function Wrap(n: nat, d: nat): nat
    requires 0 < d
    ensures Wrap(n, d) < d
  {
    n % d
  }

  function Count(given: seq<TenantId>, id: TenantId): nat {
    if given == [] then 0 else Count(given[..|given| - 1], id) + if given[|given| - 1] == id then 1 else 0
  }

  lemma {:induction false} CountAppend(a: seq<TenantId>, b: seq<TenantId>, id: TenantId)
    ensures Count(a + b, id) == Count(a, id) + Count(b, id)
  {
    if b == [] {
      assert a + b == a;
    } else {
      var n := |b| - 1;
      assert (a + b)[..|a + b| - 1] == a + b[..n];
      CountAppend(a, b[..n], id);
    }
  }

  /** In fewer than a full cycle no tenant is served twice; in a full cycle each is served once. */
  lemma {:induction false} WithinCycle(ids: seq<TenantId>, cursor: nat, given: seq<TenantId>, r: nat)
    requires Distinct(ids) && RoundRobin(ids, cursor, given) && |given| <= |ids| && r < |ids|
    ensures Count(given, ids[r]) == if Wrap(r + |ids| - Wrap(cursor, |ids|), |ids|) < |given| then 1 else 0
  {
    if given != [] {
      var n, j := |ids|, |given| - 1;
      WithinCycle(ids, cursor, given[..j], r);
      CursorHits(cursor, j, r, n);
      assert given[j] == ids[Wrap(cursor + j, n)];
      if given[j] == ids[r] {
        assert Wrap(cursor + j, n) == r;
      }
    }
  }

  lemma WrapAdd(c: nat, j: nat, n: nat)
    requires j < n
    ensures Wrap(c + j, n) == if Wrap(c, n) + j < n then Wrap(c, n) + j else Wrap(c, n) + j - n
  {
    var q, m := c / n, c % n;
    assert c == n * q + m;
    if m + j < n {
      DivUnique(c + j, n, q, m + j);
    } else {
      assert n * (q + 1) == n * q + n;
      DivUnique(c + j, n, q + 1, m + j - n);
    }
  }

  lemma WrapOnce(x: nat, n: nat)
    requires 0 < n && x < 2 * n
    ensures Wrap(x, n) == if x < n then x else x - n
  {
    if x < n {
      DivUnique(x, n, 0, x);
    } else {
      DivUnique(x, n, 1, x - n);
    }
  }

  /** The cursor reaches residue `r` within the cycle exactly after the residue distance. */
  lemma CursorHits(c: nat, j: nat, r: nat, n: nat)
    requires j < n && r < n
    ensures Wrap(c + j, n) == r <==> Wrap(r + n - Wrap(c, n), n) == j
  {
    WrapAdd(c, j, n);
    WrapOnce(r + n - Wrap(c, n), n);
  }

  /** Fairness: any stretch of k assignments gives every tenant floor(k/n) or ceil(k/n). */
  lemma {:induction false} RoundRobinFair(ids: seq<TenantId>, cursor: nat, given: seq<TenantId>, id: TenantId)
    requires Distinct(ids) && RoundRobin(ids, cursor, given) && id in ids
    ensures Quot(|given|, |ids|) <= Count(given, id) <= CeilQuot(|given|, |ids|)
    decreases |given|
  {
    var n := |ids|;
    var r :| 0 <= r < n && ids[r] == id;
    if |given| < n {
      WithinCycle(ids, cursor, given, r);
      SmallQuot(|given|, n);
      CountBound(given, id);
    } else {
      FirstCycle(ids, cursor, given, r);
      TailFollows(ids, cursor, given);
      RoundRobinFair(ids, cursor + n, given[n..], id);
      QuotStep(|given|, n);
    }
  }

  lemma {:induction false} CountBound(given: seq<TenantId>, id: TenantId)
    ensures Count(given, id) <= |given|
  {
    if given != [] {
      CountBound(given[..|given| - 1], id);
    }
  }

  lemma FirstCycle(ids: seq<TenantId>, cursor: nat, given: seq<TenantId>, r: nat)
    requires Distinct(ids) && RoundRobin(ids, cursor, given) && |ids| <= |given| && r < |ids|
    ensures Count(given, ids[r]) == 1 + Count(given[|ids|..], ids[r])
  {
    var head := given[..|ids|];
    assert given == head + given[|ids|..];
    CountAppend(head, given[|ids|..], ids[r]);
    WithinCycle(ids, cursor, head, r);
  }

  lemma TailFollows(ids: seq<TenantId>, cursor: nat, given: seq<TenantId>)
    requires RoundRobin(ids, cursor, given) && |ids| <= |given|
    ensures RoundRobin(ids, cursor + |ids|, given[|ids|..])
  {
    var n, tail := |ids|, given[|ids|..];
    forall j | 0 <= j < |tail| ensures tail[j] == ids[Wrap(cursor + n + j, n)] {
      assert tail[j] == given[n + j];
      assert cursor + (n + j) == cursor + n + j;
    }
  }

  lemma SmallQuot(k: nat, n: nat)
    requires k < n
    ensures Quot(k, n) == 0 && CeilQuot(k, n) == if k == 0 then 0 else 1
  {
    DivUnique(k, n, 0, k);
    if k == 0 {
      DivUnique(n - 1, n, 0, n - 1);
    } else {
      DivUnique(k + n - 1, n, 1, k - 1);
    }
  }

  lemma QuotStep(k: nat, n: nat)
    requires 0 < n <= k
    ensures Quot(k, n) == Quot(k - n, n) + 1 && CeilQuot(k, n) == CeilQuot(k - n, n) + 1
  {
    assert k - n == n * Quot(k - n, n) + (k - n) % n;
    DivUnique(k, n, Quot(k - n, n) + 1, (k - n) % n);
    assert k - 1 == n * ((k - 1) / n) + (k - 1) % n;
    DivUnique(k + n - 1, n, (k - 1) / n + 1, (k - 1) % n);
  }

  // ---------------------------------------------------------------- fairness over a run

  /** One free slice handed out: the tenant list and cursor of that moment, and the tenant served. */
  datatype Handout = Handout(ids: seq<TenantId>, cursor: nat, to: TenantId)

  /** How many values the cursor has: it is a machine word. */
  const CURSORS: nat := U64_MAX + 1

  function NextCursor(cursor: nat): nat {
    if cursor + 1 <= U64_MAX then cursor + 1 else 0
  }

  /** Every handout serves the tenant under the cursor, and the cursor advances by one from each to the next. */
  ghost predicate HandoutsLawful(hs: seq<Handout>, cursor: nat) {
    && cursor < CURSORS
    && (forall i :: 0 <= i < |hs| ==> hs[i].cursor < CURSORS)
    && (forall i :: 0 <= i < |hs| ==> hs[i].ids != [] && hs[i].to == hs[i].ids[Wrap(hs[i].cursor, |hs[i].ids|)])
    && (forall i :: 0 < i < |hs| ==> hs[i].cursor == NextCursor(hs[i - 1].cursor))
    && (hs != [] ==> cursor == NextCursor(hs[|hs| - 1].cursor))
  }

  lemma HandoutStep(hs: seq<Handout>, cursor: nat, ids: seq<TenantId>)
    requires HandoutsLawful(hs, cursor) && ids != []
    ensures HandoutsLawful(hs + [Handout(ids, cursor, ids[Wrap(cursor, |ids|)])], NextCursor(cursor))
  {
    var next := hs + [Handout(ids, cursor, ids[Wrap(cursor, |ids|)])];
    assert forall i :: 0 <= i < |hs| ==> next[i] == hs[i];
  }

  function Served(hs: seq<Handout>): (r: seq<TenantId>)
    ensures |r| == |hs|
  {
    seq(|hs|, i requires 0 <= i < |hs| => hs[i].to)
  }

  lemma NextWraps(x: nat)
    ensures NextCursor(Wrap(x, CURSORS)) == Wrap(x + 1, CURSORS)
  {
    var q, y := x / CURSORS, x % CURSORS;
    if y + 1 < CURSORS {
      DivUnique(x + 1, CURSORS, q, y + 1);
    } else {
      DivUnique(x + 1, CURSORS, q + 1, 0);
    }
  }

  lemma {:induction false} CursorRuns(hs: seq<Handout>, cursor: nat, a: nat, k: nat)
    requires HandoutsLawful(hs, cursor) && a + k < |hs|
    ensures hs[a + k].cursor == Wrap(hs[a].cursor + k, CURSORS)
  {
    if k == 0 {
      DivUnique(hs[a].cursor, CURSORS, 0, hs[a].cursor);
    } else {
      CursorRuns(hs, cursor, a, k - 1);
      NextWraps(hs[a].cursor + (k - 1));
    }
  }

  lemma WrapAgrees(x: nat, n: nat)
    requires 0 < n && Wrap(CURSORS, n) == 0
    ensures Wrap(Wrap(x, CURSORS), n) == Wrap(x, n)
  {
    var q, y := x / CURSORS, x % CURSORS;
    var m := CURSORS / n;
    assert CURSORS == n * m;
    assert x == n * (m * q + y / n) + y % n by {
      assert y == n * (y / n) + y % n;
      assert n * (m * q) == CURSORS * q;
    }
    DivUnique(x, n, m * q + y / n, y % n);
  }

  ghost predicate FairTo(given: seq<TenantId>, n: nat, id: TenantId)
    requires 0 < n
  {
    Quot(|given|, n) <= Count(given, id) <= CeilQuot(|given|, n)
  }

  /** In any run, any consecutive handouts over one tenant list, across ticks and whatever came between them, serve
      every tenant floor(k/n) or ceil(k/n) times: always when the number of tenants divides 2^64, and otherwise as
      long as the cursor does not wrap around on the way. */
  lemma FairOverRun(hs: seq<Handout>, cursor: nat, a: nat, b: nat, ids: seq<TenantId>, id: TenantId)
    requires HandoutsLawful(hs, cursor) && a < b <= |hs|
    requires Distinct(ids) && id in ids && forall i :: a <= i < b ==> hs[i].ids == ids
    requires Wrap(CURSORS, |ids|) == 0 || hs[a].cursor + (b - a) <= CURSORS
    ensures FairTo(Served(hs[a..b]), |ids|, id)
  {
    var given := Served(hs[a..b]);
    forall j | 0 <= j < |given| ensures given[j] == ids[Wrap(hs[a].cursor + j, |ids|)] {
      CursorRuns(hs, cursor, a, j);
      assert given[j] == hs[a + j].to;
      if Wrap(CURSORS, |ids|) == 0 {
        WrapAgrees(hs[a].cursor + j, |ids|);
      } else {
        DivUnique(hs[a].cursor + j, CURSORS, 0, hs[a].cursor + j);
      }
    }
    RoundRobinFair(ids, hs[a].cursor, given, id);
  }

  /** The `i`-th handout over one tenant list, for a cursor of `c` values. */
  function HandoutAt(ids: seq<TenantId>, c: nat, i: nat): Handout
    requires ids != [] && 0 < c
  {
    Handout(ids, Wrap(i, c), ids[Wrap(Wrap(i, c), |ids|)])
  }

  /** The run that hands out `k` slices over one tenant list from the start. */
  ghost function FullRun(ids: seq<TenantId>, c: nat, k: nat): (hs: seq<Handout>)
    requires ids != [] && 0 < c
    ensures |hs| == k && forall i :: 0 <= i < k ==> hs[i] == HandoutAt(ids, c, i)
  {
    seq(k, i requires 0 <= i => HandoutAt(ids, c, i))
  }

  lemma FullRunLawful(ids: seq<TenantId>, k: nat)
    requires ids != []
    ensures HandoutsLawful(FullRun(ids, CURSORS, k), Wrap(k, CURSORS))
  {
    var hs := FullRun(ids, CURSORS, k);
    forall i | 0 < i <= k ensures Wrap(i, CURSORS) == NextCursor(hs[i - 1].cursor) {
      NextWraps(i - 1);
    }
  }

  /** Some stretch of some run over these tenants is unfair to one of them. */
  ghost predicate UnfairStretch(ids: seq<TenantId>, hs: seq<Handout>, cursor: nat, a: nat, b: nat, id: TenantId) {
    && HandoutsLawful(hs, cursor) && a < b <= |hs| && id in ids && (forall i :: a <= i < b ==> hs[i].ids == ids)
    && ids != [] && !FairTo(Served(hs[a..b]), |ids|, id)
  }

  lemma NeverUnfair(ids: seq<TenantId>, hs: seq<Handout>, cursor: nat, a: nat, b: nat, id: TenantId)
    requires Distinct(ids) && ids != [] && Wrap(CURSORS, |ids|) == 0
    ensures !UnfairStretch(ids, hs, cursor, a, b, id)
  {
    if UnfairStretch(ids, hs, cursor, a, b, id) {
      FairOverRun(hs, cursor, a, b, ids, id);
    }
  }

  /** Fairness across the wrap, exactly: no stretch of any run over these tenants is unfair if and only if their
      number divides 2^64. */
  lemma FairExactly(ids: seq<TenantId>)
    requires Distinct(ids) && ids != []
    ensures (exists hs, cursor, a, b, id :: UnfairStretch(ids, hs, cursor, a, b, id)) <==> Wrap(CURSORS, |ids|) != 0
  {
    if Wrap(CURSORS, |ids|) == 0 {
      forall hs, cursor: nat, a: nat, b: nat, id ensures !UnfairStretch(ids, hs, cursor, a, b, id) {
        NeverUnfair(ids, hs, cursor, a, b, id);
      }
    } else {
      var hs, cursor, a, b := UnfairAcrossWrap(ids);
    }
  }

  /** Otherwise the cursor jumps back to the first tenant too early, and the stretch that ends with that handout
      serves the first tenant twice in at most as many handouts as there are tenants. */
  lemma UnfairAcrossWrap(ids: seq<TenantId>) returns (hs: seq<Handout>, cursor: nat, a: nat, b: nat)
    requires Distinct(ids) && ids != [] && Wrap(CURSORS, |ids|) != 0
    ensures hs == FullRun(ids, CURSORS, b) && a == CURSORS - Wrap(CURSORS, |ids|) && b == CURSORS + 1
    ensures UnfairStretch(ids, hs, cursor, a, b, ids[0])
  {
    b := CURSORS + 1;
    cursor := Wrap(b, CURSORS);
    FullRunLawful(ids, b);
    hs, a := UnfairAfter(ids, CURSORS, b, cursor);
  }

  /** The same for a cursor of `c` values. */
  lemma UnfairAfter(ids: seq<TenantId>, c: nat, k: nat, cursor: nat) returns (hs: seq<Handout>, a: nat)
    requires ids != [] && 0 < c && k == c + 1 && 0 < Wrap(c, |ids|) && HandoutsLawful(FullRun(ids, c, k), cursor)
    ensures hs == FullRun(ids, c, k) && a == c - Wrap(c, |ids|)
    ensures UnfairStretch(ids, hs, cursor, a, k, ids[0])
  {
    var r := Wrap(c, |ids|);
    hs := FullRun(ids, c, k);
    StartOfCycle(c, |ids|);
    WrapToStart(c, |ids|);
    a := c - r;
    assert hs[a] == HandoutAt(ids, c, a) && hs[c] == HandoutAt(ids, c, c);
    var given := Served(hs[a..k]);
    assert given[0] == hs[a].to && given[r] == hs[c].to;
    TwiceIsUnfair(given, |ids|, ids[0]);
  }

  lemma StartOfCycle(c: nat, n: nat)
    requires 0 < n && 0 < c
    ensures Wrap(c, n) <= c && (0 < Wrap(c, n) ==> Wrap(Wrap(c - Wrap(c, n), c), n) == 0)
  {
    var q, r := c / n, c % n;
    assert c == n * q + r;
    MulLe(0, q, n);
    if 0 < r {
      DivUnique(c - r, n, q, 0);
      DivUnique(c - r, c, 0, c - r);
    }
  }

  lemma WrapToStart(c: nat, n: nat)
    requires 0 < n && 0 < c
    ensures Wrap(Wrap(c, c), n) == 0
  {
    DivUnique(c, c, 1, 0);
    DivUnique(0, n, 0, 0);
  }

  lemma TwiceIsUnfair(given: seq<TenantId>, n: nat, id: TenantId)
    requires 2 <= |given| <= n && given[0] == id && given[|given| - 1] == id
    ensures !FairTo(given, n, id)
  {
    TwiceCounted(given, id);
    DivUnique(|given| + n - 1, n, 1, |given| - 1);
  }

  lemma TwiceCounted(given: seq<TenantId>, id: TenantId)
    requires |given| >= 2 && given[0] == id && given[|given| - 1] == id
    ensures Count(given, id) >= 2
  {
    var init := given[..|given| - 1];
    assert init == init[..1] + init[1..];
    CountAppend(init[..1], init[1..], id);
    assert init[..1][..0] == [];
  }
}
