/** The shared pipe ring of host/src/shared-pipe-buffer.ts, one call at a time. */
module SharedPipe {
  import opened Int32
  import opened RingIndex

  function Min(a: int, b: int): int { if a < b then a else b }

  /** `len` ring slots from `head` on, oldest first. */
  function Ring(data: seq<Byte>, head: nat, len: nat): (q: seq<Byte>)
    requires len <= |data|
    ensures |q| == len
  {
    seq(len, i requires 0 <= i < len => data[Slot(head + i, |data|)])
  }

  class SharedPipeBuffer {
    const data: array<Byte>
    var head: nat
    var tail: nat
    var len: nat

    ghost predicate Valid()
      reads this
    {
      && len <= data.Length
      && (data.Length == 0 ==> head == 0 && tail == 0)
      && (data.Length != 0 ==> head < data.Length && tail == Slot(head + len, data.Length))
    }

    /** The bytes in the pipe, oldest first. */
    ghost function Contents(): seq<Byte>
      requires Valid()
      reads this, data
    {
      Ring(data[..], head, len)
    }

    constructor (capacity: nat)
      ensures Valid() && fresh(data) && data.Length == capacity && Contents() == []
    {
      data := new Byte[capacity](_ => 0);
      head, tail, len := 0, 0, 0;
    }

    /** Appends as much of `src` as fits. */
    method Write(src: array<Byte>) returns (n: nat)
      requires Valid() && src != data
      modifies this`tail, this`len, data
      ensures Valid()
      ensures n <= src.Length && n <= data.Length - old(len)
      ensures n == src.Length || n == data.Length - old(len)
      ensures Contents() == old(Contents()) + src[..n]
    {
      hide Slot, Ring, Stored;
      var free := data.Length - len;
      n := Min(src.Length, free);
      if n == 0 {
        assert Contents() == old(Contents()) + src[..n];
        return;
      }
      var t := tail;
      StoredNone(data[..], head + len, src[..0]);
      for i := 0 to n
        invariant head == old(head) && len == old(len)
        invariant t == Slot(head + len + i, data.Length)
        invariant data[..] == Stored(old(data[..]), head + len, src[..i])
      {
        StoredMore(old(data[..]), head + len, src[..i], src[i]);
        NextSlot(head + len + i, data.Length);
        data[t] := src[i];
        t := Slot(t + 1, data.Length);
        assert src[..i + 1] == src[..i] + [src[i]];
      }
      StoredAppends(old(data[..]), head, len, src[..n]);
      tail := t;
      len := len + n;
    }

    /** Takes as many of the oldest bytes as fit in `dst`. */
    method Read(dst: array<Byte>) returns (n: nat)
      requires Valid() && dst != data
      modifies this`head, this`len, dst
      ensures Valid()
      ensures n <= dst.Length && n <= old(len)
      ensures n == dst.Length || n == old(len)
      ensures dst[..n] == old(Contents())[..n] && dst[n..] == old(dst[n..])
      ensures Contents() == old(Contents())[n..]
    {
      hide Slot;
      n := Min(dst.Length, len);
      if n == 0 { return; }
      var h := head;
      SlotWithin(head, data.Length);
      for i := 0 to n
        invariant head == old(head) && len == old(len)
        invariant h == Slot(head + i, data.Length)
        invariant dst[..i] == Ring(data[..], head, len)[..i]
        invariant dst[n..] == old(dst[n..])
      {
        NextSlot(head + i, data.Length);
        dst[i] := data[h];
        h := Slot(h + 1, data.Length);
      }
      RingDrops(data[..], head, len, n);
      head := h;
      len := len - n;
    }
  }

  /** The ring after storing `bytes` one by one from position `at` on. */
  ghost function Stored(data: seq<Byte>, at: nat, bytes: seq<Byte>): (r: seq<Byte>)
    requires 0 < |data|
    ensures |r| == |data|
    decreases |bytes|
  {
    if bytes == [] then data
    else
      var k := |bytes| - 1;
      Stored(data, at, bytes[..k])[Slot(at + k, |data|) := bytes[k]]
  }

  lemma StoredNone(data: seq<Byte>, at: nat, bytes: seq<Byte>)
    requires 0 < |data| && |bytes| == 0
    ensures Stored(data, at, bytes) == data
  {
  }

  lemma StoredMore(data: seq<Byte>, at: nat, bytes: seq<Byte>, b: Byte)
    requires 0 < |data|
    ensures Stored(data, at, bytes + [b]) == Stored(data, at, bytes)[Slot(at + |bytes|, |data|) := b]
  {
    assert (bytes + [b])[..|bytes|] == bytes;
  }

  /** Storing after the last byte of a ring that has room appends to it. */
  lemma {:induction false} StoredAppends(data: seq<Byte>, head: nat, len: nat, bytes: seq<Byte>)
    requires 0 < |data| && len + |bytes| <= |data|
    ensures Ring(Stored(data, head + len, bytes), head, len + |bytes|) == Ring(data, head, len) + bytes
    decreases |bytes|
  {
    hide Slot;
    if bytes != [] {
      var k := |bytes| - 1;
      StoredAppends(data, head, len, bytes[..k]);
      RingGrows(Stored(data, head + len, bytes[..k]), head, len + k, bytes[k]);
      assert bytes == bytes[..k] + [bytes[k]];
    }
  }

  lemma RingGrows(data: seq<Byte>, head: nat, len: nat, b: Byte)
    requires len < |data|
    ensures Ring(data[Slot(head + len, |data|) := b], head, len + 1) == Ring(data, head, len) + [b]
  {
    hide Slot;
    var q := Ring(data[Slot(head + len, |data|) := b], head, len + 1);
    forall i | 0 <= i < len
      ensures q[i] == Ring(data, head, len)[i]
    {
      DistinctSlots(head + i, head + len, |data|);
    }
  }

  lemma RingDrops(data: seq<Byte>, head: nat, len: nat, n: nat)
    requires 0 < |data| && n <= len <= |data|
    ensures Ring(data, Slot(head + n, |data|), len - n) == Ring(data, head, len)[n..]
    ensures Slot(Slot(head + n, |data|) + (len - n), |data|) == Slot(head + len, |data|)
  {
    hide Slot;
    SlotShift(head + n, len - n, |data|);
    var q := Ring(data, Slot(head + n, |data|), len - n);
    forall i | 0 <= i < len - n
      ensures q[i] == Ring(data, head, len)[n..][i]
    {
      SlotShift(head + n, i, |data|);
    }
  }
}
