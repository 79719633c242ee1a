/**
 * What the advisory lock table of host/src/shared-lock-table.ts means: the entries as a
 * sequence, requests against it, and what every request keeps.
 */
module Locks {
  import opened Int32
  import opened Wrappers

  const F_RDLCK := 0
  const F_WRLCK := 1
  const F_UNLCK := 2
  const MAX_OFFSET := 0x7fff_ffff_ffff_ffff

  type I64 = x: int | -0x8000_0000_0000_0000 <= x < 0x8000_0000_0000_0000

  datatype LockInfo = LockInfo(pathHash: I32, pid: I32, lockType: I32, start: I64, len: I64)

  /** One past the last byte; a length of zero reaches to the end of the file. */
  function End(start: int, len: int): int { if len == 0 then MAX_OFFSET else start + len }

  predicate RangesOverlap(s1: int, l1: int, s2: int, l2: int) {
    s1 < End(s2, l2) && s2 < End(s1, l1)
  }

  predicate Overlap(a: LockInfo, b: LockInfo) { RangesOverlap(a.start, a.len, b.start, b.len) }

  predicate Conflicts(existing: LockInfo, req: LockInfo) {
    && existing.pid != req.pid
    && Overlap(existing, req)
    && !(existing.lockType == F_RDLCK && req.lockType == F_RDLCK)
  }

  predicate Blocks(existing: LockInfo, req: LockInfo) {
    existing.pathHash == req.pathHash && Conflicts(existing, req)
  }

  /** Two ranges meet. A length of zero reaches up to the largest offset, 2^63 - 1. */
  predicate Meet(a: LockInfo, b: LockInfo) {
    && a.start < (if b.len == 0 then 0x7fff_ffff_ffff_ffff else b.start + b.len)
    && b.start < (if a.len == 0 then 0x7fff_ffff_ffff_ffff else a.start + a.len)
  }

  /** Another process has the file locked where the two meet, and they are not both read locks. */
  predicate InTheWay(e: LockInfo, req: LockInfo) {
    e.pathHash == req.pathHash && e.pid != req.pid && Meet(e, req) && (e.lockType != 0 || req.lockType != 0)
  }

  /** A lock of the same process that meets the request. */
  predicate Own(e: LockInfo, req: LockInfo) {
    e.pathHash == req.pathHash && e.pid == req.pid && Meet(e, req)
  }

  /** The first entry that stands in the way of a request. */
  function FirstBlocker(s: seq<LockInfo>, req: LockInfo): (r: Option<LockInfo>)
    ensures r.None? <==> forall e :: e in s ==> !InTheWay(e, req)
    ensures r.Some? ==> r.value in s && InTheWay(r.value, req)
  {
    if s == [] then None
    else
      assert s == [s[0]] + s[1..];
      if Blocks(s[0], req) then assert InTheWay(s[0], req); Some(s[0]) else FirstBlocker(s[1..], req)
  }

  /** No entry before the one reported stands in the way. */
  lemma {:induction false} ReportsFirst(s: seq<LockInfo>, req: LockInfo) returns (i: nat)
    requires FirstBlocker(s, req).Some?
    ensures i < |s| && s[i] == FirstBlocker(s, req).value && InTheWay(s[i], req)
    ensures forall j :: 0 <= j < i ==> !InTheWay(s[j], req)
  {
    i := 0;
    if !Blocks(s[0], req) {
      i := ReportsFirst(s[1..], req);
      i := 1 + i;
    }
  }

  // ---- bytes ----

  predicate Covers(e: LockInfo, x: int) { e.start <= x < End(e.start, e.len) }

  /** Sharing a byte always means overlapping, and for non-empty ranges the converse holds. */
  lemma OverlapSharesByte(a: LockInfo, b: LockInfo)
    ensures (exists x :: Covers(a, x) && Covers(b, x)) ==> Overlap(a, b)
    ensures a.start < End(a.start, a.len) && b.start < End(b.start, b.len) ==>
              (Overlap(a, b) <==> exists x :: Covers(a, x) && Covers(b, x))
  {
    var x := if a.start < b.start then b.start else a.start;
    if Overlap(a, b) && a.start < End(a.start, a.len) && b.start < End(b.start, b.len) {
      assert Covers(a, x) && Covers(b, x);
    }
  }

  /** A lock covers `len` bytes from its start, and with length zero every offset below 2^63 - 1 from there. */
  lemma CoversExactly(e: LockInfo, x: int)
    ensures e.len != 0 ==> (Covers(e, x) <==> e.start <= x < e.start + e.len)
    ensures e.len == 0 ==> (Covers(e, x) <==> e.start <= x < 0x7fff_ffff_ffff_ffff)
  {
  }

  ghost predicate SharesByte(a: LockInfo, b: LockInfo) { exists x :: Covers(a, x) && Covers(b, x) }

  /** A read or write lock on at least one byte. */
  ghost predicate Ordinary(e: LockInfo) { (e.lockType == 0 || e.lockType == 1) && exists x :: Covers(e, x) }

  lemma MeetsByByte(a: LockInfo, b: LockInfo)
    requires Ordinary(a) && Ordinary(b)
    ensures Meet(a, b) <==> SharesByte(a, b)
  {
    OverlapSharesByte(a, b);
  }

  /** A request finds a blocker exactly when another process has locked one of its bytes and one of the two writes. */
  lemma BlockedExactly(s: seq<LockInfo>, req: LockInfo)
    requires Ordinary(req) && forall e :: e in s ==> Ordinary(e)
    ensures FirstBlocker(s, req).Some? <==>
              exists e :: e in s && e.pathHash == req.pathHash && e.pid != req.pid && SharesByte(e, req)
                          && (e.lockType == 1 || req.lockType == 1)
  {
    hide FirstBlocker, Ordinary, SharesByte, Meet;
    forall e | e in s
      ensures InTheWay(e, req) <==>
                e.pathHash == req.pathHash && e.pid != req.pid && SharesByte(e, req)
                && (e.lockType == 1 || req.lockType == 1)
    {
      MeetsByByte(e, req);
      OrdinaryType(e);
      OrdinaryType(req);
    }
  }

  lemma OrdinaryType(e: LockInfo)
    requires Ordinary(e)
    ensures e.lockType == 0 || e.lockType == 1
  {
  }

  /** `pid` holds byte `x` of the file with this hash. */
  ghost predicate Holds(s: seq<LockInfo>, hash: I32, pid: I32, x: int) {
    exists i :: 0 <= i < |s| && s[i].pathHash == hash && s[i].pid == pid && Covers(s[i], x)
  }

  // ---- swap-removal ----

  /** Which entries a sweep removes. */
  datatype Criterion = Replaced(req: LockInfo) | OfPid(pid: I32)

  predicate Hit(c: Criterion, e: LockInfo) {
    match c
    case Replaced(req) => e.pathHash == req.pathHash && e.pid == req.pid && Overlap(e, req)
    case OfPid(pid) => e.pid == pid
  }

  function SwapRemove(s: seq<LockInfo>, i: nat): (r: seq<LockInfo>)
    requires i < |s|
    ensures |r| == |s| - 1
  {
    s[i := s[|s| - 1]][..|s| - 1]
  }

  /** The sweep from entry `i` on: an entry swapped in is looked at again. */
  function Sweep(s: seq<LockInfo>, i: nat, c: Criterion): (r: seq<LockInfo>)
    requires i <= |s|
    ensures |r| <= |s|
    decreases |s| - i
  {
    if i == |s| then s
    else if Hit(c, s[i]) then Sweep(SwapRemove(s, i), i, c)
    else Sweep(s, i + 1, c)
  }

  /** The entries to keep, in order. */
  function Keep(s: seq<LockInfo>, c: Criterion): (r: seq<LockInfo>)
  {
    if s == [] then [] else KeepOne(s[0], c) + Keep(s[1..], c)
  }

  function KeepOne(e: LockInfo, c: Criterion): seq<LockInfo> { if Hit(c, e) then [] else [e] }

  lemma {:induction false} KeepConcat(a: seq<LockInfo>, b: seq<LockInfo>, c: Criterion)
    ensures Keep(a + b, c) == Keep(a, c) + Keep(b, c)
  {
    hide KeepOne;
    if a == [] {
      assert a + b == b;
    } else {
      KeepConcat(a[1..], b, c);
      assert (a + b)[1..] == a[1..] + b;
      assert Keep(a + b, c) == KeepOne(a[0], c) + (Keep(a[1..], c) + Keep(b, c));
    }
  }

  lemma KeepSingle(e: LockInfo, c: Criterion)
    ensures Keep([e], c) == KeepOne(e, c)
  {
    assert [e][1..] == [];
  }

  lemma {:induction false} KeepAll(s: seq<LockInfo>, c: Criterion)
    requires forall i :: 0 <= i < |s| ==> !Hit(c, s[i])
    ensures Keep(s, c) == s
  {
    if s != [] { KeepAll(s[1..], c); }
  }

  /** An entry is kept, as often as it occurs, exactly when it is not hit. */
  lemma {:induction false} KeepMeans(s: seq<LockInfo>, c: Criterion, e: LockInfo)
    ensures multiset(Keep(s, c))[e] == if Hit(c, e) then 0 else multiset(s)[e]
  {
    hide Hit;
    if s != [] {
      KeepMeans(s[1..], c, e);
      assert s == [s[0]] + s[1..];
    }
  }

  lemma SwapKeeps(s: seq<LockInfo>, i: nat, c: Criterion)
    requires i < |s| && Hit(c, s[i])
    ensures multiset(Keep(SwapRemove(s, i), c)) == multiset(Keep(s, c))
  {
    hide Hit, Keep;
    var n := |s| - 1;
    KeepSingle(s[i], c);
    assert s == s[..n] + [s[n]];
    KeepConcat(s[..n], [s[n]], c);
    if i == n {
      assert SwapRemove(s, i) == s[..n];
    } else {
      var a, b := s[..i], s[i + 1..n];
      assert s[..n] == a + [s[i]] + b;
      assert SwapRemove(s, i) == a + [s[n]] + b;
      KeepMiddle(a, [s[i]], b, c);
      KeepMiddle(a, [s[n]], b, c);
    }
  }

  lemma KeepMiddle(a: seq<LockInfo>, m: seq<LockInfo>, b: seq<LockInfo>, c: Criterion)
    ensures Keep(a + m + b, c) == Keep(a, c) + Keep(m, c) + Keep(b, c)
  {
    hide Keep;
    KeepConcat(a, m, c);
    KeepConcat(a + m, b, c);
  }

  /** Swap-removal leaves exactly the entries the filter keeps. */
  lemma {:induction false} SweepIsFilter(s: seq<LockInfo>, i: nat, c: Criterion)
    requires i <= |s| && forall k :: 0 <= k < i ==> !Hit(c, s[k])
    ensures multiset(Sweep(s, i, c)) == multiset(Keep(s, c))
    decreases |s| - i
  {
    if i == |s| {
      KeepAll(s, c);
    } else if Hit(c, s[i]) {
      SwapKeeps(s, i, c);
      SweepIsFilter(SwapRemove(s, i), i, c);
    } else {
      SweepIsFilter(s, i + 1, c);
    }
  }

  lemma SweepMeans(s: seq<LockInfo>, c: Criterion, e: LockInfo)
    ensures e in Sweep(s, 0, c) <==> e in s && !Hit(c, e)
  {
    SweepIsFilter(s, 0, c);
    KeepMeans(s, c, e);
    assert e in Sweep(s, 0, c) <==> e in multiset(Sweep(s, 0, c));
    assert e in s <==> e in multiset(s);
  }

  /** A sweep that removes nothing leaves the very same sequence; otherwise a slot is freed. */
  lemma {:induction false} SweepFrees(s: seq<LockInfo>, i: nat, c: Criterion)
    requires i <= |s|
    ensures (forall k :: i <= k < |s| ==> !Hit(c, s[k])) ==> Sweep(s, i, c) == s
    ensures (exists k :: i <= k < |s| && Hit(c, s[k])) <==> |Sweep(s, i, c)| < |s|
    decreases |s| - i
  {
    if i < |s| {
      if Hit(c, s[i]) {
        assert |Sweep(s, i, c)| <= |SwapRemove(s, i)|;
      } else {
        SweepFrees(s, i + 1, c);
        if k :| i <= k < |s| && Hit(c, s[k]) {
          assert k != i;
        }
      }
    }
  }

  // ---- requests ----

  datatype Table = Table(entries: seq<LockInfo>, capacity: nat)

  datatype Answer = Answer(table: Table, ok: bool)

  function SetLock(t: Table, req: LockInfo): Answer {
    if req.lockType == F_UNLCK then
      Answer(t.(entries := Sweep(t.entries, 0, Replaced(req))), true)
    else if FirstBlocker(t.entries, req).Some? then
      Answer(t, false)
    else
      var kept := Sweep(t.entries, 0, Replaced(req));
      if |kept| >= t.capacity then Answer(t.(entries := kept), false)
      else Answer(t.(entries := kept + [req]), true)
  }

  function RemoveByPid(t: Table, pid: I32): Table {
    t.(entries := Sweep(t.entries, 0, OfPid(pid)))
  }

  /** A refused request changes nothing, even when it is refused for want of a slot. */
  lemma RefusedUnchanged(t: Table, req: LockInfo)
    requires |t.entries| <= t.capacity && !SetLock(t, req).ok
    ensures SetLock(t, req).table == t
  {
    SweepFrees(t.entries, 0, Replaced(req));
  }

  /** F_GETLK reports no blocker exactly when F_SETLK succeeds, given a free slot or one the request frees. */
  lemma GetlkAgrees(t: Table, req: LockInfo)
    requires |t.entries| <= t.capacity && req.lockType != F_UNLCK
    ensures SetLock(t, req).ok <==>
              && FirstBlocker(t.entries, req).None?
              && (|t.entries| < t.capacity || exists k :: 0 <= k < |t.entries| && Hit(Replaced(req), t.entries[k]))
  {
    SweepFrees(t.entries, 0, Replaced(req));
  }

  // ---- what every request keeps ----

  predicate Compatible(a: LockInfo, b: LockInfo) {
    a.pathHash == b.pathHash && Overlap(a, b) ==>
      a.pid != b.pid && a.lockType == F_RDLCK && b.lockType == F_RDLCK
  }

  ghost predicate Coherent(s: seq<LockInfo>) {
    forall i, j :: 0 <= i < j < |s| ==> Compatible(s[i], s[j])
  }

  lemma AnyTwo(s: seq<LockInfo>, i: nat, j: nat)
    requires Coherent(s) && i < |s| && j < |s| && i != j
    ensures Compatible(s[i], s[j])
  {
    if j < i { assert Compatible(s[j], s[i]); }
  }

  ghost predicate Good(t: Table) { |t.entries| <= t.capacity && Coherent(t.entries) }

  lemma SwapCoherent(s: seq<LockInfo>, i: nat)
    requires i < |s| && Coherent(s)
    ensures Coherent(SwapRemove(s, i))
  {
    var r, n := SwapRemove(s, i), |s| - 1;
    forall j, k | 0 <= j < k < |r|
      ensures Compatible(r[j], r[k])
    {
      if j == i {
        assert Compatible(s[k], s[n]);
      } else if k == i {
        assert Compatible(s[j], s[n]);
      } else {
        assert Compatible(s[j], s[k]);
      }
    }
  }

  lemma {:induction false} SweepCoherent(s: seq<LockInfo>, i: nat, c: Criterion)
    requires i <= |s| && Coherent(s)
    ensures Coherent(Sweep(s, i, c))
    decreases |s| - i
  {
    if i < |s| {
      if Hit(c, s[i]) {
        SwapCoherent(s, i);
        SweepCoherent(SwapRemove(s, i), i, c);
      } else {
        SweepCoherent(s, i + 1, c);
      }
    }
  }

  lemma AddCoherent(s: seq<LockInfo>, req: LockInfo)
    requires Coherent(s) && FirstBlocker(s, req).None?
    ensures Coherent(Sweep(s, 0, Replaced(req)) + [req])
  {
    var kept := Sweep(s, 0, Replaced(req));
    SweepCoherent(s, 0, Replaced(req));
    forall i | 0 <= i < |kept|
      ensures Compatible(kept[i], req)
    {
      SweepMeans(s, Replaced(req), kept[i]);
      var k :| 0 <= k < |s| && s[k] == kept[i];
      assert !Blocks(s[k], req);
    }
  }

  lemma SetLockKeepsGood(t: Table, req: LockInfo)
    requires Good(t)
    ensures Good(SetLock(t, req).table) && SetLock(t, req).table.capacity == t.capacity
  {
    SweepCoherent(t.entries, 0, Replaced(req));
    if FirstBlocker(t.entries, req).None? { AddCoherent(t.entries, req); }
  }

  // ---- runs of requests ----

  datatype Request = Set(lock: LockInfo) | Exit(pid: I32)

  function Apply(t: Table, r: Request): Table {
    match r
    case Set(req) => SetLock(t, req).table
    case Exit(pid) => RemoveByPid(t, pid)
  }

  function ApplyAll(t: Table, rs: seq<Request>): Table
  {
    if rs == [] then t else Apply(ApplyAll(t, rs[..|rs| - 1]), rs[|rs| - 1])
  }

  lemma {:induction false} ReachableGood(capacity: nat, rs: seq<Request>)
    ensures Good(ApplyAll(Table([], capacity), rs)) && ApplyAll(Table([], capacity), rs).capacity == capacity
  {
    if rs != [] {
      var was, r := ApplyAll(Table([], capacity), rs[..|rs| - 1]), rs[|rs| - 1];
      ReachableGood(capacity, rs[..|rs| - 1]);
      match r
      case Set(req) => SetLockKeepsGood(was, req);
      case Exit(pid) => SweepCoherent(was.entries, 0, OfPid(pid));
    }
  }

  /** After any requests, two processes hold a common byte of a path hash only under read locks. */
  lemma NoConflictEver(capacity: nat, rs: seq<Request>, i: nat, j: nat, x: int)
    requires var s := ApplyAll(Table([], capacity), rs).entries;
             i < |s| && j < |s| && s[i].pathHash == s[j].pathHash && Covers(s[i], x) && Covers(s[j], x) && i != j
    ensures var s := ApplyAll(Table([], capacity), rs).entries;
            s[i].pid != s[j].pid && s[i].lockType == F_RDLCK && s[j].lockType == F_RDLCK
  {
    ReachableGood(capacity, rs);
    var s := ApplyAll(Table([], capacity), rs).entries;
    OverlapSharesByte(s[i], s[j]);
    AnyTwo(s, i, j);
  }

  // ---- what a request does to the bytes held ----

  /** A granted lock covers its range, in its own mode and for its own process. */
  lemma Granted(t: Table, req: LockInfo, x: int)
    requires req.lockType != F_UNLCK && SetLock(t, req).ok && Covers(req, x)
    ensures Holds(SetLock(t, req).table.entries, req.pathHash, req.pid, x)
    ensures req in SetLock(t, req).table.entries
  {
    var s := SetLock(t, req).table.entries;
    assert s[|s| - 1] == req;
  }

  /** Nothing of the range stays locked by the process after F_UNLCK, and no other lock is touched. */
  lemma UnlockReleases(t: Table, req: LockInfo)
    requires req.lockType == F_UNLCK
    ensures var s := SetLock(t, req).table.entries;
            && (forall x :: Covers(req, x) ==> !Holds(s, req.pathHash, req.pid, x))
            && (forall e: LockInfo :: e.pid != req.pid || e.pathHash != req.pathHash ==> (e in s <==> e in t.entries))
  {
    var s := SetLock(t, req).table.entries;
    forall x | Covers(req, x)
      ensures !Holds(s, req.pathHash, req.pid, x)
    {
      if i :| 0 <= i < |s| && s[i].pathHash == req.pathHash && s[i].pid == req.pid && Covers(s[i], x) {
        SweepMeans(t.entries, Replaced(req), s[i]);
        OverlapSharesByte(s[i], req);
      }
    }
    forall e: LockInfo | e.pid != req.pid || e.pathHash != req.pathHash
      ensures e in s <==> e in t.entries
    {
      SweepMeans(t.entries, Replaced(req), e);
    }
  }

  /** Every overlapping entry of the process lies inside the requested range (or covers no byte). */
  ghost predicate WholeEntries(s: seq<LockInfo>, req: LockInfo) {
    forall i :: 0 <= i < |s| && Hit(Replaced(req), s[i]) ==> Inside(s[i], req)
  }

  predicate Inside(e: LockInfo, req: LockInfo) {
    || End(e.start, e.len) <= e.start
    || (req.start <= e.start && End(e.start, e.len) <= End(req.start, req.len))
  }

  ghost predicate OutsideKept(s: seq<LockInfo>, req: LockInfo) {
    forall x :: !Covers(req, x) && Holds(s, req.pathHash, req.pid, x) ==>
      Holds(Sweep(s, 0, Replaced(req)), req.pathHash, req.pid, x)
  }

  /**
   * F_UNLCK drops whole entries, so bytes outside the requested range stay locked exactly when
   * no overlapping entry reaches beyond the range.
   */
  lemma UnlockKeepsOutside(s: seq<LockInfo>, req: LockInfo)
    requires Coherent(s)
    ensures OutsideKept(s, req) <==> WholeEntries(s, req)
  {
    if WholeEntries(s, req) {
      forall x | !Covers(req, x) && Holds(s, req.pathHash, req.pid, x)
        ensures Holds(Sweep(s, 0, Replaced(req)), req.pathHash, req.pid, x)
      {
        OutsideByteKept(s, req, x);
      }
    } else {
      var i :| 0 <= i < |s| && Hit(Replaced(req), s[i]) && !Inside(s[i], req);
      var x := if s[i].start < req.start then s[i].start else End(s[i].start, s[i].len) - 1;
      OutsideByteLost(s, req, i, x);
    }
  }

  lemma OutsideByteKept(s: seq<LockInfo>, req: LockInfo, x: int)
    requires WholeEntries(s, req) && !Covers(req, x) && Holds(s, req.pathHash, req.pid, x)
    ensures Holds(Sweep(s, 0, Replaced(req)), req.pathHash, req.pid, x)
  {
    var i :| 0 <= i < |s| && s[i].pathHash == req.pathHash && s[i].pid == req.pid && Covers(s[i], x);
    var r := Sweep(s, 0, Replaced(req));
    SweepMeans(s, Replaced(req), s[i]);
    var k :| 0 <= k < |r| && r[k] == s[i];
    assert Covers(r[k], x);
  }

  lemma OwnDisjoint(s: seq<LockInfo>, i: nat, e: LockInfo)
    requires Coherent(s) && i < |s| && e in s && e.pathHash == s[i].pathHash && e.pid == s[i].pid && Overlap(s[i], e)
    ensures e == s[i]
  {
    var j :| 0 <= j < |s| && s[j] == e;
    if i != j { AnyTwo(s, i, j); }
  }

  lemma OutsideByteLost(s: seq<LockInfo>, req: LockInfo, i: nat, x: int)
    requires Coherent(s) && i < |s| && Hit(Replaced(req), s[i]) && Covers(s[i], x) && !Covers(req, x)
    ensures !OutsideKept(s, req)
  {
    var r := Sweep(s, 0, Replaced(req));
    assert Holds(s, req.pathHash, req.pid, x);
    if k :| 0 <= k < |r| && r[k].pathHash == req.pathHash && r[k].pid == req.pid && Covers(r[k], x) {
      SweepMeans(s, Replaced(req), r[k]);
      OverlapSharesByte(s[i], r[k]);
      OwnDisjoint(s, i, r[k]);
    }
  }

  /** A process that locked bytes 0..99 and unlocks 0..9 loses byte 50 as well. */
  lemma UnlockLosesByte50()
    ensures var held := LockInfo(7, 1, F_WRLCK, 0, 100);
            var t := ApplyAll(Table([], 256), [Set(held), Set(LockInfo(7, 1, F_UNLCK, 0, 10))]);
            Holds([held], 7, 1, 50) && t.entries == []
  {
    var held, release := LockInfo(7, 1, F_WRLCK, 0, 100), LockInfo(7, 1, F_UNLCK, 0, 10);
    var rs := [Set(held), Set(release)];
    assert rs[..1] == [Set(held)] && rs[..1][..0] == [];
    assert ApplyAll(Table([], 256), rs[..1]).entries == [held];
    assert Covers([held][0], 50);
    assert Sweep([held], 0, Replaced(release)) == [];
  }

  // ---- requests, spelled out ----

  lemma HitMeans(req: LockInfo, e: LockInfo)
    ensures Hit(Replaced(req), e) <==> Own(e, req)
  {
  }

  /** What a request leaves in the table, and when it is granted. */
  lemma RequestExactly(t: Table, req: LockInfo)
    requires |t.entries| <= t.capacity
    ensures SetLock(t, req).ok <==>
              || req.lockType == 2
              || ((forall e :: e in t.entries ==> !InTheWay(e, req))
                  && (|t.entries| < t.capacity || exists e :: e in t.entries && Own(e, req)))
    ensures SetLock(t, req).ok ==>
              forall e :: e in SetLock(t, req).table.entries <==>
                (e == req && req.lockType != 2) || (e in t.entries && !Own(e, req))
    ensures !SetLock(t, req).ok ==> SetLock(t, req).table == t
  {
    hide Sweep, FirstBlocker, InTheWay, Hit, Own;
    SweepFrees(t.entries, 0, Replaced(req));
    RoomFreed(t.entries, req);
    if SetLock(t, req).ok { LeavesExactly(t, req); }
  }

  lemma LeavesExactly(t: Table, req: LockInfo)
    requires SetLock(t, req).ok
    ensures forall e :: e in SetLock(t, req).table.entries <==>
              (e == req && req.lockType != 2) || (e in t.entries && !Own(e, req))
  {
    hide Sweep, FirstBlocker, Hit, Own;
    var kept := Sweep(t.entries, 0, Replaced(req));
    forall e: LockInfo
      ensures e in kept <==> e in t.entries && !Own(e, req)
      ensures e in kept + [req] <==> e == req || e in kept
    {
      SweepMeans(t.entries, Replaced(req), e);
      HitMeans(req, e);
    }
  }

  lemma RoomFreed(s: seq<LockInfo>, req: LockInfo)
    ensures (exists k :: 0 <= k < |s| && Hit(Replaced(req), s[k])) <==> exists e :: e in s && Own(e, req)
  {
    hide Hit, Own;
    if k :| 0 <= k < |s| && Hit(Replaced(req), s[k]) {
      HitMeans(req, s[k]);
      assert s[k] in s;
    }
    if e :| e in s && Own(e, req) {
      var k :| 0 <= k < |s| && s[k] == e;
      HitMeans(req, s[k]);
    }
  }

  /** An ordinary request is granted exactly when no lock of another process stands against a byte of it,
      and there is a free slot, or one that a lock of its own on these bytes gives up. */
  lemma GrantedExactly(t: Table, req: LockInfo)
    requires |t.entries| <= t.capacity && Ordinary(req) && forall e :: e in t.entries ==> Ordinary(e)
    ensures SetLock(t, req).ok <==>
              && (forall e :: e in t.entries && e.pathHash == req.pathHash && e.pid != req.pid && SharesByte(e, req) ==>
                    e.lockType == 0 && req.lockType == 0)
              && (|t.entries| < t.capacity ||
                  exists e :: e in t.entries && e.pathHash == req.pathHash && e.pid == req.pid && SharesByte(e, req))
  {
    hide SetLock, Ordinary, SharesByte, Meet;
    RequestExactly(t, req);
    OrdinaryType(req);
    forall e | e in t.entries
      ensures Meet(e, req) <==> SharesByte(e, req)
      ensures e.lockType == 0 || e.lockType == 1
    {
      MeetsByByte(e, req);
      OrdinaryType(e);
    }
  }

  /** Process exit removes the locks of that process, all of them and no others. */
  lemma ExitExactly(t: Table, pid: I32, e: LockInfo)
    ensures e in RemoveByPid(t, pid).entries <==> e in t.entries && e.pid != pid
    ensures RemoveByPid(t, pid).capacity == t.capacity
  {
    SweepMeans(t.entries, OfPid(pid), e);
  }
}
