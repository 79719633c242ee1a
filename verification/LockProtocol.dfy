/**
 * Any number of threads on one lock table, interleaved at every step that other threads can
 * see: the compare-and-swap spinlock, the critical section, the wake counter and the sleep of a
 * blocked `setLockWait`, as in host/src/shared-lock-table.ts.
 */
module LockProtocol {
  import opened Int32
  import opened Locks

  datatype Op = OpGet(req: LockInfo) | OpSet(req: LockInfo) | OpWait(req: LockInfo) | OpExit(pid: I32)

  /** How many removals and replacements had been made when a request was found blocked. */
  datatype Seen = Seen(sweeps: nat, replacements: nat)

  /** Where a thread stands. From `Inside` to `Leaving` it is between `acquire` and `release`. */
  datatype Pc =
    | Idle
    | Acquiring(op: Op)
    | Parked(op: Op)
    | Inside(op: Op)
    | Bumping(op: Op)
    | Notifying(op: Op)
    | Releasing(op: Op, ok: bool)
    | Loading(req: LockInfo, seen: Seen)
    | Leaving(req: LockInfo, seen: Seen, w: nat)
    | Waiting(req: LockInfo, seen: Seen, w: nat)
    | Sleeping(req: LockInfo, seen: Seen, w: nat)

  /**
   * The shared words and the threads, with a record of which thread last won the spinlock, how
   * many removals (F_UNLCK or process exit) and how many lock replacements were made.
   */
  datatype State = State(
    table: Table, spin: int, wake: nat, threads: seq<Pc>,
    holder: int, sweeps: nat, replacements: nat)

  predicate Init(s: State) {
    && s.table.entries == [] && s.spin == 0 && s.wake == 0
    && (forall i :: 0 <= i < |s.threads| ==> s.threads[i] == Idle)
    && s.holder == -1 && s.sweeps == 0 && s.replacements == 0
  }

  function Goto(s: State, i: nat, pc: Pc): State
    requires i < |s.threads|
  {
    s.(threads := s.threads[i := pc])
  }

  /** `Atomics.notify` on the wake counter: every sleeper goes round its loop again. */
  function Roused(pc: Pc): Pc { if pc.Sleeping? then Acquiring(OpWait(pc.req)) else pc }

  function NotifyAll(threads: seq<Pc>): (r: seq<Pc>)
    ensures |r| == |threads|
  {
    seq(|threads|, i requires 0 <= i < |threads| => Roused(threads[i]))
  }

  predicate Replaces(t: Table, req: LockInfo) {
    SetLock(t, req).ok && |Sweep(t.entries, 0, Replaced(req))| < |t.entries|
  }

  /** The critical section up to its last change of the table. */
  function Section(s: State, i: nat, op: Op): State
    requires i < |s.threads|
  {
    match op
    case OpGet(_) => Goto(s, i, Releasing(op, true))
    case OpSet(req) => SetSection(s, i, op, req)
    case OpWait(req) =>
      if FirstBlocker(s.table.entries, req).Some? then Goto(s, i, Loading(req, Seen(s.sweeps, s.replacements)))
      else SetSection(s, i, op, req)
    case OpExit(pid) =>
      Goto(s.(table := RemoveByPid(s.table, pid), sweeps := s.sweeps + 1), i, Bumping(op))
  }

  function SetSection(s: State, i: nat, op: Op, req: LockInfo): State
    requires i < |s.threads|
  {
    var a := SetLock(s.table, req);
    if req.lockType == F_UNLCK then
      Goto(s.(table := a.table, sweeps := s.sweeps + 1), i, Bumping(op))
    else
      Goto(s.(table := a.table, replacements := s.replacements + if Replaces(s.table, req) then 1 else 0),
           i, Releasing(op, a.ok))
  }

  predicate Step(s: State, t: State, i: nat)
  {
    && i < |s.threads|
    && match s.threads[i]
       case Idle => i < |t.threads| && t.threads[i].Acquiring? && t == Goto(s, i, t.threads[i])
       case Acquiring(op) =>
         if s.spin == 0 then t == Goto(s, i, Inside(op)).(spin := 1, holder := i)
         else t == Goto(s, i, Parked(op))
       case Parked(op) => t == Goto(s, i, Acquiring(op))
       case Inside(op) => t == Section(s, i, op)
       case Bumping(op) => t == Goto(s, i, Notifying(op)).(wake := s.wake + 1)
       case Notifying(op) => t == Goto(s.(threads := NotifyAll(s.threads)), i, Releasing(op, true))
       case Releasing(_, _) => t == Goto(s, i, Idle).(spin := 0, holder := -1)
       case Loading(req, seen) => t == Goto(s, i, Leaving(req, seen, s.wake))
       case Leaving(req, seen, w) => t == Goto(s, i, Waiting(req, seen, w)).(spin := 0, holder := -1)
       case Waiting(req, seen, w) =>
         t == Goto(s, i, if s.wake == w then Sleeping(req, seen, w) else Acquiring(OpWait(req)))
       case Sleeping(req, _, _) => t == Goto(s, i, Acquiring(OpWait(req)))
  }

  ghost predicate Next(s: State, t: State) { exists i: nat :: Step(s, t, i) }

  ghost predicate Run(run: seq<State>) {
    && run != [] && Init(run[0])
    && forall k :: 0 <= k < |run| - 1 ==> Next(run[k], run[k + 1])
  }

  // ---- the invariant ----

  predicate InSection(pc: Pc) {
    pc.Inside? || pc.Bumping? || pc.Notifying? || pc.Releasing? || pc.Loading? || pc.Leaving?
  }

  /** A blocked `setLockWait`, from its check to the end of its sleep. */
  predicate Blocked(pc: Pc) { pc.Loading? || pc.Leaving? || pc.Waiting? || pc.Sleeping? }

  /** Where the thread with this number stands; -1 is no thread. */
  function At(s: State, i: int): Pc { if 0 <= i < |s.threads| then s.threads[i] else Idle }

  ghost predicate BlockedInv(s: State, pc: Pc)
    requires Blocked(pc)
  {
    && pc.seen.sweeps <= s.sweeps && pc.seen.replacements <= s.replacements
    && (pc.seen == Seen(s.sweeps, s.replacements) ==> FirstBlocker(s.table.entries, pc.req).Some?)
  }

  ghost predicate Settled(s: State, pc: Pc)
    requires pc.Releasing?
  {
    (pc.op.OpSet? || pc.op.OpWait?) && pc.op.req.lockType != F_UNLCK ==>
      if pc.ok then pc.op.req in s.table.entries
      else |s.table.entries| == s.table.capacity || (pc.op.OpSet? && FirstBlocker(s.table.entries, pc.op.req).Some?)
  }

  ghost predicate PcInv(s: State, i: nat)
    requires i < |s.threads|
  {
    var pc := s.threads[i];
    && (InSection(pc) <==> s.holder == i)
    && (Blocked(pc) ==> BlockedInv(s, pc))
    && (pc.Bumping? ==> s.sweeps == s.wake + 1)
    && (pc.Bumping? || pc.Notifying? ==> pc.op.OpExit? || pc.op.req.lockType == F_UNLCK)
    && (pc.Loading? || pc.Leaving? ==> pc.seen == Seen(s.sweeps, s.replacements))
    && (pc.Leaving? || pc.Waiting? || pc.Sleeping? ==> pc.w == pc.seen.sweeps)
    && (pc.Sleeping? && pc.w != s.wake ==> pc.w + 1 == s.wake && At(s, s.holder).Notifying?)
    && (pc.Releasing? ==> Settled(s, pc))
  }

  ghost predicate Shared(s: State) {
    && Good(s.table)
    && -1 <= s.holder < |s.threads|
    && s.spin == (if s.holder == -1 then 0 else 1)
    && s.wake <= s.sweeps
    && (s.holder == -1 || !s.threads[s.holder].Bumping? ==> s.sweeps == s.wake)
  }

  ghost predicate Inv(s: State) {
    Shared(s) && forall i :: 0 <= i < |s.threads| ==> PcInv(s, i)
  }

  // ---- the critical section ----

  /** A request that removes nothing leaves every blocked request blocked. */
  lemma StaysBlocked(t: Table, req: LockInfo, waiting: LockInfo)
    requires Good(t) && req.lockType != F_UNLCK && !Replaces(t, req)
    ensures FirstBlocker(t.entries, waiting).Some? ==> FirstBlocker(SetLock(t, req).table.entries, waiting).Some?
  {
    if SetLock(t, req).ok {
      SweepFrees(t.entries, 0, Replaced(req));
    } else {
      RefusedUnchanged(t, req);
    }
  }

  lemma SetSectionKeeps(s: State, t: State, i: nat, req: LockInfo)
    requires Inv(s) && i < |s.threads| && s.threads[i].Inside? && t == SetSection(s, i, s.threads[i].op, req)
    requires s.threads[i].op == OpSet(req) ||
             (s.threads[i].op == OpWait(req) && FirstBlocker(s.table.entries, req).None?)
    ensures Inv(t)
  {
    hide SetLock, Good, FirstBlocker, Replaces;
    SetLockKeepsGood(s.table, req);
    assert PcInv(s, i);
    SetSettles(s.table, req);
    forall j: nat | j < |t.threads|
      ensures PcInv(t, j)
    {
      assert PcInv(s, j);
      if j != i && Blocked(s.threads[j]) && req.lockType != F_UNLCK && !Replaces(s.table, req) {
        StaysBlocked(s.table, req, s.threads[j].req);
      }
    }
  }

  /** After a read or write request the lock is in the table, or was refused: by a blocker or for want of a slot. */
  lemma SetSettles(t: Table, req: LockInfo)
    requires Good(t)
    ensures req.lockType != F_UNLCK && SetLock(t, req).ok ==> req in SetLock(t, req).table.entries
    ensures !SetLock(t, req).ok ==>
              || FirstBlocker(SetLock(t, req).table.entries, req).Some?
              || |SetLock(t, req).table.entries| == SetLock(t, req).table.capacity
    ensures !SetLock(t, req).ok && FirstBlocker(t.entries, req).None? ==>
              |SetLock(t, req).table.entries| == SetLock(t, req).table.capacity
  {
    if !SetLock(t, req).ok { RefusedUnchanged(t, req); }
  }

  lemma SectionKeeps(s: State, t: State, i: nat)
    requires Inv(s) && i < |s.threads| && s.threads[i].Inside? && Step(s, t, i)
    ensures Inv(t)
  {
    hide SetLock, Sweep, FirstBlocker, SetSection, Replaces, Coherent;
    match s.threads[i].op
    case OpSet(req) => SetSectionKeeps(s, t, i, req);
    case OpWait(req) =>
      if FirstBlocker(s.table.entries, req).Some? {
        OthersKept(s, t, i);
      } else {
        SetSectionKeeps(s, t, i, req);
      }
    case OpGet(_) => OthersKept(s, t, i);
    case OpExit(pid) => ExitKeeps(s, t, i, pid);
  }

  lemma ExitKeeps(s: State, t: State, i: nat, pid: I32)
    requires Inv(s) && i < |s.threads| && s.threads[i] == Inside(OpExit(pid)) && Step(s, t, i)
    ensures Inv(t)
  {
    hide Sweep, FirstBlocker, SetLock;
    SweepCoherent(s.table.entries, 0, OfPid(pid));
    assert PcInv(s, i);
    forall j: nat | j < |t.threads|
      ensures PcInv(t, j)
    {
      assert PcInv(s, j);
    }
  }

  /** Steps that change neither the table nor the counts. */
  lemma OthersKept(s: State, t: State, i: nat)
    requires Inv(s) && Step(s, t, i)
    requires t.table == s.table && t.sweeps == s.sweeps && t.replacements == s.replacements
    requires !s.threads[i].Bumping? && !s.threads[i].Notifying?
    requires s.threads[i].Inside? && !s.threads[i].op.OpGet? ==>
               s.threads[i].op.OpWait? && FirstBlocker(s.table.entries, s.threads[i].op.req).Some?
    ensures Inv(t)
  {
    hide SetLock, Sweep, FirstBlocker, SetSection, Replaces, Coherent;
    assert PcInv(s, i);
    forall j: nat | j < |t.threads|
      ensures PcInv(t, j)
    {
      assert PcInv(s, j);
    }
  }

  lemma BumpKeeps(s: State, t: State, i: nat)
    requires Inv(s) && Step(s, t, i) && s.threads[i].Bumping?
    ensures Inv(t)
  {
    hide SetLock, Sweep, FirstBlocker, Coherent;
    assert PcInv(s, i);
    forall j: nat | j < |t.threads|
      ensures PcInv(t, j)
    {
      assert PcInv(s, j);
    }
  }

  lemma NotifyKeeps(s: State, t: State, i: nat)
    requires Inv(s) && Step(s, t, i) && s.threads[i].Notifying?
    ensures Inv(t)
  {
    hide SetLock, Sweep, FirstBlocker, Coherent;
    assert PcInv(s, i);
    forall j: nat | j < |t.threads|
      ensures PcInv(t, j)
    {
      assert PcInv(s, j);
    }
  }

  lemma StepKeeps(s: State, t: State, i: nat)
    requires Inv(s) && Step(s, t, i)
    ensures Inv(t)
  {
    hide Inv;
    match s.threads[i]
    case Inside(_) => SectionKeeps(s, t, i);
    case Bumping(_) => BumpKeeps(s, t, i);
    case Notifying(_) => NotifyKeeps(s, t, i);
    case _ => OthersKept(s, t, i);
  }

  lemma {:induction false} RunInv(run: seq<State>, k: nat)
    requires Run(run) && k < |run|
    ensures Inv(run[k])
  {
    if k > 0 {
      RunInv(run, k - 1);
      assert Next(run[k - 1], run[k - 1 + 1]);
      var i: nat :| Step(run[k - 1], run[k], i);
      StepKeeps(run[k - 1], run[k], i);
    }
  }

  lemma RunStep(run: seq<State>, k: nat)
    requires Run(run) && k + 1 < |run|
    ensures Inv(run[k]) && Inv(run[k + 1]) && Next(run[k], run[k + 1])
  {
    RunInv(run, k);
    RunInv(run, k + 1);
  }

  // ---- what every run keeps ----

  /** At most one thread is between `acquire` and `release`, and the table never holds conflicting locks. */
  lemma MutualExclusion(run: seq<State>, k: nat, i: nat, j: nat)
    requires Run(run) && k < |run| && i < |run[k].threads| && j < |run[k].threads|
    requires InSection(run[k].threads[i]) && InSection(run[k].threads[j])
    ensures i == j && run[k].spin == 1
    ensures Good(run[k].table)
  {
    RunInv(run, k);
    assert PcInv(run[k], i) && PcInv(run[k], j);
  }

  lemma TableAlwaysGood(run: seq<State>, k: nat)
    requires Run(run) && k < |run|
    ensures Good(run[k].table)
  {
    RunInv(run, k);
  }

  /** No thread stands between the removal of locks and the notification of the sleepers. */
  predicate Quiet(s: State) {
    forall i :: 0 <= i < |s.threads| ==> !s.threads[i].Bumping? && !s.threads[i].Notifying?
  }

  predicate SameWait(a: Pc, b: Pc) { Blocked(a) && Blocked(b) && a.req == b.req && a.seen == b.seen }

  lemma SectionBack(s: State, t: State, i: nat, j: nat)
    requires j < |s.threads| && i < |t.threads| && s.threads[j].Inside? && t == Section(s, j, s.threads[j].op)
    requires Blocked(t.threads[i])
    ensures i < |s.threads| && s.sweeps <= t.sweeps
    ensures t.threads[i].Loading? || t.threads[i] == s.threads[i]
  {
    hide SetLock, Sweep, FirstBlocker, Replaces, RemoveByPid;
  }

  lemma StepBack(s: State, t: State, i: nat, j: nat)
    requires Step(s, t, j) && i < |t.threads| && Blocked(t.threads[i])
    ensures i < |s.threads| && s.sweeps <= t.sweeps
    ensures t.threads[i].Loading? || SameWait(s.threads[i], t.threads[i])
  {
    hide Section;
    if s.threads[j].Inside? { SectionBack(s, t, i, j); }
  }

  /** The moment at which a blocked thread was found blocked, and that it has been blocked ever since. */
  lemma {:induction false} BlockedSince(run: seq<State>, k: nat, i: nat) returns (m: nat)
    requires Run(run) && k < |run| && i < |run[k].threads| && Blocked(run[k].threads[i])
    ensures m <= k && i < |run[m].threads| && run[m].threads[i].Loading?
    ensures run[m].sweeps <= run[k].sweeps
    ensures forall q :: m <= q <= k ==> i < |run[q].threads| && SameWait(run[q].threads[i], run[k].threads[i])
    ensures forall q :: m <= q <= k ==> run[q].sweeps <= run[k].sweeps
  {
    hide Step, SameWait, Blocked, Inv;
    if run[k].threads[i].Loading? {
      m := k;
      assert SameWait(run[k].threads[i], run[k].threads[i]) by { SameWaitSelf(run[k].threads[i]); }
    } else {
      InitIdle(run, k, i);
      RunStep(run, k - 1);
      var j: nat :| Step(run[k - 1], run[k], j);
      StepBack(run[k - 1], run[k], i, j);
      SameWaitBlocked(run[k - 1].threads[i], run[k].threads[i]);
      m := BlockedSince(run, k - 1, i);
      forall q | m <= q <= k
        ensures i < |run[q].threads| && SameWait(run[q].threads[i], run[k].threads[i]) && run[q].sweeps <= run[k].sweeps
      {
        if q == k {
          SameWaitSelf(run[k].threads[i]);
        } else {
          SameWaitChain(run[q].threads[i], run[k - 1].threads[i], run[k].threads[i]);
        }
      }
    }
  }

  lemma InitIdle(run: seq<State>, k: nat, i: nat)
    requires Run(run) && k < |run| && i < |run[k].threads| && Blocked(run[k].threads[i])
    ensures k > 0
  {
  }

  lemma SameWaitSelf(a: Pc)
    requires Blocked(a)
    ensures SameWait(a, a)
  {
  }

  lemma SameWaitBlocked(a: Pc, b: Pc)
    requires SameWait(a, b)
    ensures Blocked(a) && Blocked(b)
  {
  }

  lemma SameWaitChain(a: Pc, b: Pc, c: Pc)
    requires SameWait(a, b) && SameWait(b, c)
    ensures SameWait(a, c)
  {
  }

  /**
   * No unlock is missed. Going back from any sleeping thread to the moment `m` at which it was found
   * blocked: it has been blocked since, on the counter value of that moment. If that is the current
   * value, no F_UNLCK and no process exit has removed locks since then, but for one that is just
   * about to bump the counter; if it is not, the one removal made since is about to notify.
   */
  lemma NoMissedUnlock(run: seq<State>, k: nat, i: nat) returns (m: nat)
    requires Run(run) && k < |run| && i < |run[k].threads| && run[k].threads[i].Sleeping?
    ensures m <= k && i < |run[m].threads| && run[m].threads[i].Loading?
    ensures run[m].threads[i].req == run[k].threads[i].req
    ensures run[k].threads[i].w == run[m].wake == run[m].sweeps
    ensures forall q :: m <= q <= k ==>
              i < |run[q].threads| && Blocked(run[q].threads[i]) && run[m].sweeps <= run[q].sweeps <= run[k].sweeps
    ensures run[k].threads[i].w == run[k].wake ==>
              || run[k].sweeps == run[m].sweeps
              || (run[k].sweeps == run[m].sweeps + 1 && At(run[k], run[k].holder).Bumping?)
    ensures run[k].threads[i].w != run[k].wake ==>
              run[k].sweeps == run[m].sweeps + 1 && At(run[k], run[k].holder).Notifying?
    ensures run[k].sweeps == run[m].sweeps && run[k].replacements == run[m].replacements ==>
              FirstBlocker(run[k].table.entries, run[k].threads[i].req).Some?
  {
    hide Run, FirstBlocker, SameWait;
    m := BlockedSince(run, k, i);
    RunInv(run, k);
    RunInv(run, m);
    assert PcInv(run[k], i) && PcInv(run[m], i);
    SameWaitMeans(run[m].threads[i], run[k].threads[i]);
    if 0 <= run[k].holder { assert PcInv(run[k], run[k].holder); }
    forall q | m <= q <= k
      ensures i < |run[q].threads| && Blocked(run[q].threads[i]) && run[m].sweeps <= run[q].sweeps <= run[k].sweeps
    {
      SameWaitMeans(run[q].threads[i], run[k].threads[i]);
      RunInv(run, q);
      assert PcInv(run[q], i);
    }
  }

  /** In particular, while no removal is under way nothing has been removed since,
      and without a replacement it is blocked still. */
  lemma QuietSleeper(run: seq<State>, k: nat, i: nat) returns (m: nat)
    requires Run(run) && k < |run| && i < |run[k].threads| && run[k].threads[i].Sleeping? && Quiet(run[k])
    ensures m <= k && i < |run[m].threads| && run[m].threads[i].Loading?
    ensures run[m].threads[i].req == run[k].threads[i].req
    ensures forall q :: m <= q <= k ==>
              i < |run[q].threads| && Blocked(run[q].threads[i]) && run[q].sweeps == run[m].sweeps
    ensures run[k].replacements == run[m].replacements ==>
              FirstBlocker(run[k].table.entries, run[k].threads[i].req).Some?
  {
    hide Run, FirstBlocker, Blocked;
    m := NoMissedUnlock(run, k, i);
  }

  lemma SameWaitMeans(a: Pc, b: Pc)
    requires SameWait(a, b)
    ensures Blocked(a) && Blocked(b) && a.req == b.req && a.seen == b.seen
  {
  }

  /** When a request for a read or write lock lets go of the spinlock for good, the lock is held;
      or the table is full; or, for `setLock`, another lock stands in the way at that moment. */
  lemma HeldOnReturn(run: seq<State>, k: nat, i: nat)
    requires Run(run) && k + 1 < |run| && i < |run[k].threads| && Step(run[k], run[k + 1], i)
    requires run[k].threads[i].Releasing? && (run[k].threads[i].op.OpWait? || run[k].threads[i].op.OpSet?)
    requires run[k].threads[i].op.req.lockType != F_UNLCK
    ensures run[k + 1].threads[i] == Idle
    ensures var t, Releasing(op, ok) := run[k + 1].table, run[k].threads[i];
            && (ok ==> op.req in t.entries)
            && (!ok ==> || |t.entries| == t.capacity
                        || (op.OpSet? && exists e :: e in t.entries && InTheWay(e, op.req)))
  {
    RunInv(run, k);
    assert PcInv(run[k], i);
    hide InTheWay, Inv;
  }

  /** The call a thread is in. */
  function OpOf(pc: Pc): Op
    requires pc != Idle
  {
    if pc.Loading? || pc.Leaving? || pc.Waiting? || pc.Sleeping? then OpWait(pc.req) else pc.op
  }

  /** A thread stays in its call until it lets go of the spinlock with an answer: no wait is given up. */
  lemma StaysInCall(run: seq<State>, k: nat, j: nat)
    requires Run(run) && k + 1 < |run| && j < |run[k].threads| && run[k].threads[j] != Idle
    ensures |run[k + 1].threads| == |run[k].threads|
    ensures var pc, next := run[k].threads[j], run[k + 1].threads[j];
            if next == Idle then pc.Releasing? else OpOf(next) == OpOf(pc)
  {
    hide Step, Inv;
    RunStep(run, k);
    var i: nat :| Step(run[k], run[k + 1], i);
    StepStays(run[k], run[k + 1], i, j);
  }

  lemma StepStays(s: State, t: State, i: nat, j: nat)
    requires Step(s, t, i) && j < |s.threads| && s.threads[j] != Idle
    ensures |t.threads| == |s.threads|
    ensures if t.threads[j] == Idle then s.threads[j].Releasing? else OpOf(t.threads[j]) == OpOf(s.threads[j])
  {
    hide Section;
    if s.threads[i].Inside? { SectionStays(s, i, s.threads[i].op); }
  }

  lemma SectionStays(s: State, i: nat, op: Op)
    requires i < |s.threads|
    ensures var t := Section(s, i, op);
            && |t.threads| == |s.threads| && t.threads[i] != Idle && OpOf(t.threads[i]) == op
            && t.threads == s.threads[i := t.threads[i]]
  {
    hide SetLock, RemoveByPid, FirstBlocker, Replaces;
  }

  /** What a step of a thread does to the table: nothing, but for the one step of a request that is granted
      and of a process exit; what those leave, entry by entry. */
  lemma TableChanges(run: seq<State>, k: nat, i: nat)
    requires Run(run) && k + 1 < |run| && Step(run[k], run[k + 1], i)
    ensures var s, t := run[k], run[k + 1];
            && |t.threads| == |s.threads|
            && (!s.threads[i].Inside? || s.threads[i].op.OpGet? ==> t.table == s.table)
            && (s.threads[i].Inside? && s.threads[i].op.OpExit? ==>
                  forall e :: e in t.table.entries <==> e in s.table.entries && e.pid != s.threads[i].op.pid)
            && (s.threads[i].Inside? && (s.threads[i].op.OpSet? || s.threads[i].op.OpWait?) ==>
                  var req := s.threads[i].op.req;
                  if t.threads[i].Bumping? || (t.threads[i].Releasing? && t.threads[i].ok) then
                    forall e :: e in t.table.entries <==>
                      (e == req && req.lockType != 2) || (e in s.table.entries && !Own(e, req))
                  else t.table == s.table)
  {
    hide Run, SetLock, RemoveByPid, Own, FirstBlocker, Replaces, Good;
    RunInv(run, k);
    var s := run[k];
    if s.threads[i].Inside? {
      match s.threads[i].op
      case OpExit(pid) =>
        forall e: LockInfo
          ensures e in RemoveByPid(s.table, pid).entries <==> e in s.table.entries && e.pid != pid
        {
          ExitExactly(s.table, pid, e);
        }
      case OpSet(req) => SetEffect(s.table, req);
      case OpWait(req) => SetEffect(s.table, req);
      case OpGet(_) =>
    }
  }

  lemma SetEffect(t: Table, req: LockInfo)
    requires Good(t)
    ensures SetLock(t, req).ok ==>
              forall e :: e in SetLock(t, req).table.entries <==>
                (e == req && req.lockType != 2) || (e in t.entries && !Own(e, req))
    ensures !SetLock(t, req).ok ==> SetLock(t, req).table == t
    ensures req.lockType == F_UNLCK ==> SetLock(t, req).ok
  {
    hide SetLock;
    RequestExactly(t, req);
  }

  /** A lock stays until its own process asks for something or exits. */
  lemma OthersLeaveAlone(t: Table, e: LockInfo, r: Request)
    requires Good(t) && e in t.entries
    requires match r case Set(req) => req.pid != e.pid case Exit(pid) => pid != e.pid
    ensures e in Apply(t, r).entries
  {
    match r
    case Set(req) =>
      SweepMeans(t.entries, Replaced(req), e);
    case Exit(pid) =>
      SweepMeans(t.entries, OfPid(pid), e);
  }

  // ---- where the wake-up falls short ----

  /** Exactly when a granted request leaves a waiting request unblocked; no wake-up follows it. */
  lemma ReplacementUnblocks(t: Table, req: LockInfo, waiting: LockInfo)
    requires req.lockType != F_UNLCK && SetLock(t, req).ok
    ensures FirstBlocker(SetLock(t, req).table.entries, waiting).None? <==>
              !InTheWay(req, waiting) && forall e :: e in t.entries && InTheWay(e, waiting) ==> Own(e, req)
  {
    hide SetLock, InTheWay, Own;
    LeavesExactly(t, req);
  }

  lemma Extend(run: seq<State>, t: State, i: nat)
    requires Run(run) && Step(run[|run| - 1], t, i)
    ensures Run(run + [t])
  {
    hide Step;
    var more := run + [t];
    forall k | 0 <= k < |more| - 1
      ensures Next(more[k], more[k + 1])
    {
      if k + 1 < |run| {
        assert Next(run[k], run[k + 1]);
      } else {
        assert Step(more[k], more[k + 1], i);
      }
    }
  }

  /** A process downgrades its write lock: a reader that waited for it sleeps on, though nothing blocks it. */
  lemma SleepsUnblocked() returns (run: seq<State>)
    ensures Run(run)
    ensures var s := run[|run| - 1];
            && |s.threads| == 2 && s.threads[0] == Idle && s.threads[1].Sleeping?
            && s.threads[1].w == s.wake && Quiet(s)
            && FirstBlocker(s.table.entries, s.threads[1].req).None?
  {
    var write, read := LockInfo(7, 1, F_WRLCK, 0, 10), LockInfo(7, 1, F_RDLCK, 0, 10);
    run := WriterThenSleeper();
    var req := LockInfo(7, 2, F_RDLCK, 0, 10);
    var sleep := Sleeping(req, Seen(0, 0), 0);
    var op := OpSet(read);
    var s := State(Table([write], 2), 0, 0, [Acquiring(op), sleep], -1, 0, 0);
    Extend(run, s, 0);
    run := run + [s];
    s := State(Table([write], 2), 1, 0, [Inside(op), sleep], 0, 0, 0);
    Extend(run, s, 0);
    run := run + [s];
    s := State(Table([read], 2), 1, 0, [Releasing(op, true), sleep], 0, 0, 1);
    assert Sweep([write], 0, Replaced(read)) == Sweep([], 0, Replaced(read)) == [];
    Extend(run, s, 0);
    run := run + [s];
    s := State(Table([read], 2), 0, 0, [Idle, sleep], -1, 0, 1);
    Extend(run, s, 0);
    run := run + [s];
  }

  lemma WriterThenSleeper() returns (run: seq<State>)
    ensures Run(run)
    ensures run[|run| - 1] == State(Table([LockInfo(7, 1, F_WRLCK, 0, 10)], 2), 0, 0,
                                    [Idle, Sleeping(LockInfo(7, 2, F_RDLCK, 0, 10), Seen(0, 0), 0)], -1, 0, 0)
  {
    var write, req := LockInfo(7, 1, F_WRLCK, 0, 10), LockInfo(7, 2, F_RDLCK, 0, 10);
    var full := Table([write], 2);
    run := OneWriter();
    var s := State(full, 0, 0, [Idle, Acquiring(OpWait(req))], -1, 0, 0);
    Extend(run, s, 1);
    run := run + [s];
    s := State(full, 1, 0, [Idle, Inside(OpWait(req))], 1, 0, 0);
    Extend(run, s, 1);
    run := run + [s];
    s := State(full, 1, 0, [Idle, Loading(req, Seen(0, 0))], 1, 0, 0);
    assert Blocks(write, req) && write in full.entries;
    Extend(run, s, 1);
    run := run + [s];
    s := State(full, 1, 0, [Idle, Leaving(req, Seen(0, 0), 0)], 1, 0, 0);
    Extend(run, s, 1);
    run := run + [s];
    s := State(full, 0, 0, [Idle, Waiting(req, Seen(0, 0), 0)], -1, 0, 0);
    Extend(run, s, 1);
    run := run + [s];
    s := State(full, 0, 0, [Idle, Sleeping(req, Seen(0, 0), 0)], -1, 0, 0);
    Extend(run, s, 1);
    run := run + [s];
  }

  lemma OneWriter() returns (run: seq<State>)
    ensures Run(run)
    ensures run[|run| - 1] == State(Table([LockInfo(7, 1, F_WRLCK, 0, 10)], 2), 0, 0, [Idle, Idle], -1, 0, 0)
  {
    var write := LockInfo(7, 1, F_WRLCK, 0, 10);
    var op := OpSet(write);
    run := [State(Table([], 2), 0, 0, [Idle, Idle], -1, 0, 0)];
    var s := State(Table([], 2), 0, 0, [Acquiring(op), Idle], -1, 0, 0);
    Extend(run, s, 0);
    run := run + [s];
    s := State(Table([], 2), 1, 0, [Inside(op), Idle], 0, 0, 0);
    Extend(run, s, 0);
    run := run + [s];
    s := State(Table([write], 2), 1, 0, [Releasing(op, true), Idle], 0, 0, 0);
    assert SetLock(Table([], 2), write).table.entries == [write];
    Extend(run, s, 0);
    run := run + [s];
    s := State(Table([write], 2), 0, 0, [Idle, Idle], -1, 0, 0);
    Extend(run, s, 0);
    run := run + [s];
  }

  /**
   * `setLock` with F_UNLCK always removes; `setLockWait` with F_UNLCK waits instead exactly when
   * some other process has an overlapping lock on the same hash.
   */
  lemma UnlockMayWait(s: State, i: nat, req: LockInfo)
    requires i < |s.threads| && req.lockType == F_UNLCK
    ensures Section(s, i, OpSet(req)).threads[i] == Bumping(OpSet(req))
    ensures Section(s, i, OpWait(req)).threads[i].Loading? <==>
              exists e :: e in s.table.entries && e.pathHash == req.pathHash && e.pid != req.pid && Meet(e, req)
  {
    var r := FirstBlocker(s.table.entries, req);
    if e :| e in s.table.entries && e.pathHash == req.pathHash && e.pid != req.pid && Meet(e, req) {
      assert InTheWay(e, req);
    }
  }
}
