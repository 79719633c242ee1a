/** The lock table of host/src/shared-lock-table.ts as it lies in its shared Int32Array. */
module LockTable {
  import opened Int32
  import opened Locks
  import opened Wrappers

  const HEADER_INTS := 4
  const ENTRY_INTS := 8
  const SPINLOCK := 0
  const COUNT := 1
  const CAPACITY := 2
  const WAKE_COUNTER := 3

  // ---- 64-bit offsets in two 32-bit words ----

  /** The wake counter after `Atomics.add` of one. */
  function Bumped(x: I32): (r: I32)
    ensures (r - x - 1) % 0x1_0000_0000 == 0
  {
    var n: int := x;
    ToI32(n + 1)
  }

  function I64ToParts(val: int): (int, int) { (val % TWO32, (val / TWO32) % TWO32) }

  function I64FromParts(lo: I32, hi: I32): I64 { hi * TWO32 + lo % TWO32 }

  /** Splitting an offset, storing both halves and joining them gives the offset back. */
  lemma PartsRoundTrip(val: I64)
    ensures var (lo, hi) := I64ToParts(val);
            I64FromParts(ToI32(lo), ToI32(hi)) == val
  {
    var h := val / TWO32;
    assert val == h * TWO32 + val % TWO32;
    assert -0x8000_0000 <= h < 0x8000_0000;
    LowHalf(val % TWO32);
    HighHalf(h);
    hide ToI32;
  }

  lemma LowHalf(lo: int)
    requires 0 <= lo < TWO32
    ensures ToI32(lo) % TWO32 == lo
  {
  }

  lemma HighHalf(h: I32)
    ensures ToI32(h % TWO32) == h
  {
  }

  // ---- entries in the array ----

  function Base(i: nat): nat { HEADER_INTS + i * ENTRY_INTS }

  function EntryAt(v: seq<I32>, i: nat): LockInfo
    requires Base(i + 1) <= |v|
  {
    var b := Base(i);
    LockInfo(v[b], v[b + 1], v[b + 2], I64FromParts(v[b + 4], v[b + 5]), I64FromParts(v[b + 6], v[b + 7]))
  }

  ghost predicate WellFormed(v: seq<I32>) {
    |v| >= HEADER_INTS && 0 <= v[COUNT] <= v[CAPACITY] && |v| == Base(v[CAPACITY])
  }

  ghost function Entries(v: seq<I32>): (s: seq<LockInfo>)
    requires WellFormed(v)
    ensures |s| == v[COUNT]
  {
    seq(v[COUNT], i requires 0 <= i < v[COUNT] => EntryAt(v, i))
  }

  ghost predicate SameCells(v: seq<I32>, i: nat, w: seq<I32>, j: nat)
    requires Base(i + 1) <= |v| && Base(j + 1) <= |w|
  {
    v[Base(i)..Base(i + 1)] == w[Base(j)..Base(j + 1)]
  }

  lemma SameEntry(v: seq<I32>, i: nat, w: seq<I32>, j: nat)
    requires Base(i + 1) <= |v| && Base(j + 1) <= |w| && SameCells(v, i, w, j)
    ensures EntryAt(v, i) == EntryAt(w, j)
  {
    hide I64FromParts;
    var x, y := v[Base(i)..Base(i + 1)], w[Base(j)..Base(j + 1)];
    assert forall k :: 0 <= k < 8 ==> v[Base(i) + k] == x[k] && w[Base(j) + k] == y[k];
    assert v[Base(i) + 0] == w[Base(j) + 0] && v[Base(i) + 1] == w[Base(j) + 1] && v[Base(i) + 2] == w[Base(j) + 2];
    assert v[Base(i) + 4] == w[Base(j) + 4] && v[Base(i) + 5] == w[Base(j) + 5];
    assert v[Base(i) + 6] == w[Base(j) + 6] && v[Base(i) + 7] == w[Base(j) + 7];
  }

  class SharedLockTable {
    const view: array<I32>

    ghost predicate Valid()
      reads view
    {
      WellFormed(view[..])
    }

    /** The table the array stands for. */
    ghost function Contents(): Table
      requires Valid()
      reads view
    {
      Table(Entries(view[..]), view[CAPACITY])
    }

    constructor (capacity: nat)
      requires capacity < 0x8000_0000
      ensures Valid() && fresh(view) && Contents() == Table([], capacity) && view[WAKE_COUNTER] == 0
    {
      view := new I32[HEADER_INTS + capacity * ENTRY_INTS](_ => 0);
      new;
      view[SPINLOCK] := 0;
      view[COUNT] := 0;
      view[CAPACITY] := capacity;
      view[WAKE_COUNTER] := 0;
    }

    method ReadEntry(index: nat) returns (e: LockInfo)
      requires Valid() && index < view[COUNT]
      ensures e == Contents().entries[index]
    {
      var base := Base(index);
      e := LockInfo(view[base], view[base + 1], view[base + 2],
                    I64FromParts(view[base + 4], view[base + 5]), I64FromParts(view[base + 6], view[base + 7]));
    }

    method WriteEntry(index: nat, e: LockInfo)
      requires Base(index + 1) <= view.Length
      modifies view
      ensures EntryAt(view[..], index) == e
      ensures forall k :: 0 <= k < view.Length && !(Base(index) <= k < Base(index + 1)) ==> view[k] == old(view[k])
    {
      var base := Base(index);
      var (sLo, sHi) := I64ToParts(e.start);
      var (lLo, lHi) := I64ToParts(e.len);
      PartsRoundTrip(e.start);
      PartsRoundTrip(e.len);
      hide ToI32, I64FromParts;
      view[base] := e.pathHash;
      view[base + 1] := e.pid;
      view[base + 2] := e.lockType;
      view[base + 3] := 0;
      view[base + 4] := ToI32(sLo);
      view[base + 5] := ToI32(sHi);
      view[base + 6] := ToI32(lLo);
      view[base + 7] := ToI32(lHi);
    }

    /** Copies the words of one entry over another. */
    method CopyEntry(source: nat, target: nat)
      requires source != target && Base(source + 1) <= view.Length && Base(target + 1) <= view.Length
      modifies view
      ensures SameCells(view[..], target, old(view[..]), source)
      ensures forall k :: 0 <= k < view.Length && !(Base(target) <= k < Base(target + 1)) ==> view[k] == old(view[k])
    {
      ghost var v := view[..];
      var from, base := Base(source), Base(target);
      for i := 0 to ENTRY_INTS
        invariant view[base..base + i] == v[from..from + i]
        invariant forall k :: 0 <= k < view.Length && !(base <= k < base + i) ==> view[k] == v[k]
      {
        view[base + i] := view[from + i];
      }
    }

    method RemoveEntry(index: nat)
      requires Valid() && index < view[COUNT]
      modifies view
      ensures Valid()
      ensures Contents() == old(Contents().(entries := SwapRemove(Contents().entries, index)))
      ensures view[WAKE_COUNTER] == old(view[WAKE_COUNTER])
    {
      hide SameCells;
      ghost var v := view[..];
      var count := view[COUNT];
      if index < count - 1 {
        CopyEntry(count - 1, index);
      }
      ghost var moved := view[..];
      view[COUNT] := count - 1;
      assert view[CAPACITY] == moved[CAPACITY];
      Removed(v, moved, view[..], index);
    }

    method GetBlockingLock(req: LockInfo) returns (r: Option<LockInfo>)
      requires Valid()
      ensures r == FirstBlocker(Contents().entries, req)
      ensures r.Some? <==> exists e :: e in Contents().entries && InTheWay(e, req)
    {
      hide FirstBlocker, InTheWay, Conflicts;
      var count := view[COUNT];
      var i := 0;
      ghost var s := Contents().entries;
      assert s[0..] == s;
      while i < count
        invariant 0 <= i <= count
        invariant FirstBlocker(s, req) == FirstBlocker(s[i..], req)
      {
        var entry := ReadEntry(i);
        BlockerFrom(s, i, req);
        if entry.pathHash == req.pathHash && Conflicts(entry, req) {
          return Some(entry);
        }
        i := i + 1;
      }
      BlockerOfNone(s[i..], req);
      return None;
    }

    /** The removal loop that F_UNLCK, replacement and process exit share. */
    method RemoveHits(c: Criterion)
      requires Valid()
      modifies view
      ensures Valid()
      ensures Contents() == old(Contents().(entries := Sweep(Contents().entries, 0, c)))
      ensures view[WAKE_COUNTER] == old(view[WAKE_COUNTER])
    {
      var i := 0;
      ghost var s := Contents().entries;
      while i < view[COUNT]
        invariant Valid() && 0 <= i <= view[COUNT]
        invariant Contents().capacity == old(Contents().capacity)
        invariant Sweep(Contents().entries, i, c) == Sweep(s, 0, c)
        invariant view[WAKE_COUNTER] == old(view[WAKE_COUNTER])
        decreases view[COUNT] - i
      {
        var entry := ReadEntry(i);
        if Hit(c, entry) {
          RemoveEntry(i);
        } else {
          i := i + 1;
        }
      }
    }

    method Wake()
      requires Valid()
      modifies view
      ensures Valid() && Contents() == old(Contents())
      ensures view[WAKE_COUNTER] == Bumped(old(view[WAKE_COUNTER]))
    {
      ghost var v := view[..];
      view[WAKE_COUNTER] := Bumped(view[WAKE_COUNTER]);
      SameTable(v, view[..]);
    }

    /** Sets, replaces or removes a lock; only F_UNLCK bumps the wake counter. */
    method SetLockUnsafe(req: LockInfo) returns (ok: bool)
      requires Valid()
      modifies view
      ensures Valid()
      ensures Answer(Contents(), ok) == old(SetLock(Contents(), req))
      ensures view[WAKE_COUNTER] ==
                if req.lockType == F_UNLCK then Bumped(old(view[WAKE_COUNTER])) else old(view[WAKE_COUNTER])
      ensures ok <==>
                || req.lockType == 2
                || ((forall e :: e in old(Contents().entries) ==> !InTheWay(e, req))
                    && (old(|Contents().entries| < Contents().capacity)
                        || exists e :: e in old(Contents().entries) && Own(e, req)))
      ensures ok ==> forall e :: e in Contents().entries <==>
                       (e == req && req.lockType != 2) || (e in old(Contents().entries) && !Own(e, req))
      ensures !ok ==> Contents() == old(Contents())
    {
      hide InTheWay, Own;
      RequestExactly(Contents(), req);
      if req.lockType == F_UNLCK {
        RemoveHits(Replaced(req));
        Wake();
        return true;
      }
      var blocker := GetBlockingLock(req);
      if blocker.Some? {
        return false;
      }
      RemoveHits(Replaced(req));
      var count := view[COUNT];
      var capacity := view[CAPACITY];
      if count >= capacity {
        return false;
      }
      ghost var v := view[..];
      WriteEntry(count, req);
      ghost var w := view[..];
      view[COUNT] := count + 1;
      Appended(v, w, view[..], req);
      return true;
    }

    method RemoveLocksByPid(pid: I32)
      requires Valid()
      modifies view
      ensures Valid()
      ensures Contents() == old(RemoveByPid(Contents(), pid))
      ensures forall e :: e in Contents().entries <==> e in old(Contents().entries) && e.pid != pid
      ensures view[WAKE_COUNTER] == Bumped(old(view[WAKE_COUNTER]))
    {
      forall e: LockInfo
        ensures e in RemoveByPid(Contents(), pid).entries <==> e in Contents().entries && e.pid != pid
      {
        ExitExactly(Contents(), pid, e);
      }
      RemoveHits(OfPid(pid));
      Wake();
    }
  }

  lemma BlockerFrom(s: seq<LockInfo>, i: nat, req: LockInfo)
    requires i < |s|
    ensures FirstBlocker(s[i..], req) == if Blocks(s[i], req) then Some(s[i]) else FirstBlocker(s[i + 1..], req)
  {
    assert s[i..][1..] == s[i + 1..];
  }

  lemma BlockerOfNone(s: seq<LockInfo>, req: LockInfo)
    requires s == []
    ensures FirstBlocker(s, req).None?
  {
  }

  /** Cells outside the wake counter decide the contents. */
  lemma SameTable(v: seq<I32>, w: seq<I32>)
    requires WellFormed(v) && |w| == |v|
    requires forall k :: 0 <= k < |v| && k != WAKE_COUNTER ==> w[k] == v[k]
    ensures WellFormed(w) && Entries(w) == Entries(v)
  {
    forall i: nat | i < v[COUNT]
      ensures EntryAt(w, i) == EntryAt(v, i)
    {
      assert SameCells(w, i, v, i);
      SameEntry(w, i, v, i);
    }
  }

  lemma Removed(v: seq<I32>, moved: seq<I32>, w: seq<I32>, index: nat)
    requires WellFormed(v) && index < v[COUNT] && |moved| == |v|
    requires forall k :: 0 <= k < |v| && !(Base(index) <= k < Base(index + 1)) ==> moved[k] == v[k]
    requires if index < v[COUNT] - 1 then SameCells(moved, index, v, v[COUNT] - 1) else moved == v
    requires w == moved[COUNT := v[COUNT] - 1]
    ensures WellFormed(w) && Entries(w) == SwapRemove(Entries(v), index)
  {
    hide EntryAt;
    var n := v[COUNT] - 1;
    forall i: nat | i < n
      ensures EntryAt(w, i) == SwapRemove(Entries(v), index)[i]
    {
      if i == index {
        assert SameCells(w, i, v, n);
        SameEntry(w, i, v, n);
      } else {
        assert SameCells(w, i, v, i);
        SameEntry(w, i, v, i);
      }
    }
  }

  lemma Appended(v: seq<I32>, w: seq<I32>, u: seq<I32>, e: LockInfo)
    requires WellFormed(v) && v[COUNT] < v[CAPACITY] && |w| == |v|
    requires forall k :: 0 <= k < |v| && !(Base(v[COUNT]) <= k < Base(v[COUNT] + 1)) ==> w[k] == v[k]
    requires EntryAt(w, v[COUNT]) == e && u == w[COUNT := v[COUNT] + 1]
    ensures WellFormed(u) && Entries(u) == Entries(v) + [e]
  {
    hide EntryAt;
    var n := v[COUNT];
    assert SameCells(u, n, w, n);
    SameEntry(u, n, w, n);
    forall i: nat | i < n
      ensures EntryAt(u, i) == EntryAt(v, i)
    {
      assert SameCells(u, i, v, i);
      SameEntry(u, i, v, i);
    }
  }
}
