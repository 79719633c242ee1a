/**
 * One writer and one reader on a shared pipe, interleaved at every single load, store and
 * byte copy of `write` and `read` in host/src/shared-pipe-buffer.ts.
 */
module PipeProtocol {
  import opened Int32
  import opened RingIndex
  import opened SharedPipe

  datatype Writer =
    | WIdle
    | WCalled(src: seq<Byte>)
    | WSized(src: seq<Byte>, n: int)
    | WCopying(src: seq<Byte>, n: int, i: int, tail: int)
    | WStored(src: seq<Byte>, n: int)

  datatype Reader =
    | RIdle
    | RCalled(room: nat)
    | RSized(m: int)
    | RCopying(m: int, j: int, head: int, dst: seq<Byte>)
    | RStored(m: int, dst: seq<Byte>)

  /**
   * The shared words and ring, the two threads, and a record of the run: every byte the writer
   * put in the ring, every byte the reader took out, and how many of each `len` accounts for.
   */
  datatype State = State(
    head: int, tail: int, len: int, data: seq<Byte>,
    writer: Writer, reader: Reader,
    put: seq<Byte>, got: seq<Byte>, published: nat, released: nat)

  predicate Init(s: State) {
    && s.head == 0 && s.tail == 0 && s.len == 0
    && s.writer == WIdle && s.reader == RIdle
    && s.put == [] && s.got == [] && s.published == 0 && s.released == 0
  }

  /** JavaScript's `(i + 1) % cap` for a non-negative index. */
  function Bump(i: int, cap: nat): int {
    if cap == 0 || i < 0 then i else Slot(i + 1, cap)
  }

  /** A typed-array store outside the bounds is ignored, and a load there yields 0. */
  function Store(data: seq<Byte>, at: int, b: Byte): seq<Byte> {
    if 0 <= at < |data| then data[at := b] else data
  }

  function Load(data: seq<Byte>, at: int): Byte {
    if 0 <= at < |data| then data[at] else 0
  }

  predicate WriterStep(s: State, t: State) {
    match s.writer
    case WIdle =>
      t.writer.WCalled? && t == s.(writer := t.writer)
    case WCalled(src) =>
      var n := Min(|src|, |s.data| - s.len);
      t == s.(writer := if n == 0 then WIdle else WSized(src, n))
    case WSized(src, n) =>
      t == s.(writer := WCopying(src, n, 0, s.tail))
    case WCopying(src, n, i, tail) =>
      if 0 <= i < n && i < |src| then
        t == s.(data := Store(s.data, tail, src[i]),
                writer := WCopying(src, n, i + 1, Bump(tail, |s.data|)),
                put := s.put + [src[i]])
      else
        t == s.(tail := tail, writer := WStored(src, n))
    case WStored(_, n) =>
      t == s.(len := s.len + n, writer := WIdle, published := |s.put|)
  }

  predicate ReaderStep(s: State, t: State) {
    match s.reader
    case RIdle =>
      t.reader.RCalled? && t == s.(reader := t.reader)
    case RCalled(room) =>
      var m := Min(room, s.len);
      t == s.(reader := if m == 0 then RIdle else RSized(m))
    case RSized(m) =>
      t == s.(reader := RCopying(m, 0, s.head, []))
    case RCopying(m, j, head, dst) =>
      if j < m then
        var b := Load(s.data, head);
        t == s.(reader := RCopying(m, j + 1, Bump(head, |s.data|), dst + [b]), got := s.got + [b])
      else
        t == s.(head := head, reader := RStored(m, dst))
    case RStored(m, dst) =>
      t == s.(len := s.len - m, reader := RIdle, released := |s.got|)
  }

  predicate Next(s: State, t: State) { WriterStep(s, t) || ReaderStep(s, t) }

  ghost predicate Run(run: seq<State>) {
    && run != [] && Init(run[0])
    && forall i :: 0 <= i < |run| - 1 ==> Next(run[i], run[i + 1])
  }

  // ---- the invariant ----

  ghost predicate WriterInv(s: State) {
    match s.writer
    case WIdle => |s.put| == s.published && TailAt(s, s.published)
    case WCalled(_) => |s.put| == s.published && TailAt(s, s.published)
    case WSized(src, n) =>
      && 0 < n <= |src| && s.published + n <= s.released + |s.data|
      && |s.put| == s.published && TailAt(s, s.published)
    case WCopying(src, n, i, tail) =>
      && 0 < n <= |src| && 0 <= i <= n && s.published + n <= s.released + |s.data|
      && |s.put| == s.published + i && s.put[s.published..] == src[..i]
      && TailAt(s, s.published) && 0 < |s.data| && tail == Slot(|s.put|, |s.data|)
    case WStored(src, n) =>
      && 0 < n <= |src| && s.published + n <= s.released + |s.data|
      && |s.put| == s.published + n && s.put[s.published..] == src[..n]
      && TailAt(s, |s.put|)
  }

  ghost predicate ReaderInv(s: State) {
    match s.reader
    case RIdle => |s.got| == s.released && HeadAt(s, s.released)
    case RCalled(_) => |s.got| == s.released && HeadAt(s, s.released)
    case RSized(m) =>
      && 0 < m && s.released + m <= s.published
      && |s.got| == s.released && HeadAt(s, s.released)
    case RCopying(m, j, head, dst) =>
      && 0 <= j <= m && 0 < m && s.released + m <= s.published
      && |s.got| == s.released + j && dst == s.got[s.released..]
      && HeadAt(s, s.released) && 0 < |s.data| && head == Slot(|s.got|, |s.data|)
    case RStored(m, dst) =>
      && 0 < m && s.released + m <= s.published
      && |s.got| == s.released + m && dst == s.got[s.released..]
      && HeadAt(s, |s.got|)
  }

  ghost predicate TailAt(s: State, k: nat) { if |s.data| == 0 then s.tail == 0 else s.tail == Slot(k, |s.data|) }

  ghost predicate HeadAt(s: State, k: nat) { if |s.data| == 0 then s.head == 0 else s.head == Slot(k, |s.data|) }

  /** Position `k` of the byte stream is in its ring slot. */
  predicate InPlace(s: State, k: nat) {
    0 < |s.data| && k < |s.put| && s.data[Slot(k, |s.data|)] == s.put[k]
  }

  ghost predicate Inv(s: State) {
    && s.released <= |s.got| <= s.published <= |s.put| <= s.released + |s.data|
    && s.len == s.published - s.released
    && s.got == s.put[..|s.got|]
    && (forall k :: s.released <= k < |s.put| ==> InPlace(s, k))
    && WriterInv(s)
    && ReaderInv(s)
  }

  lemma InitInv(s: State)
    requires Init(s)
    ensures Inv(s)
  {
    if |s.data| != 0 { SlotWithin(0, |s.data|); }
  }

  lemma WriterKeeps(s: State, t: State)
    requires Inv(s) && WriterStep(s, t)
    ensures Inv(t)
  {
    hide Slot;
    if s.writer.WCopying? && s.writer.i < s.writer.n {
      StoreByte(s, t);
    } else {
      StaysInPlace(s, t);
    }
  }

  lemma StaysInPlace(s: State, t: State)
    requires Inv(s) && t.data == s.data && t.put == s.put && s.released <= t.released
    ensures forall k :: t.released <= k < |t.put| ==> InPlace(t, k)
  {
    forall k | t.released <= k < |t.put|
      ensures InPlace(t, k)
    {
      assert InPlace(s, k);
    }
  }

  lemma StoreByte(s: State, t: State)
    requires Inv(s) && s.writer.WCopying? && s.writer.i < s.writer.n && WriterStep(s, t)
    ensures Inv(t)
    ensures forall k :: s.released <= k < |s.put| ==> InPlace(s, k) && Slot(k, |s.data|) != s.writer.tail
  {
    hide Slot, InPlace;
    StoreInPlace(s, t);
    NextSlot(|s.put|, |s.data|);
    TakeMore(s.writer.src, s.writer.i);
    DropMore(s.put, s.writer.src[s.writer.i], s.published);
    PrefixStays(s.got, s.put, s.writer.src[s.writer.i]);
  }

  lemma StoreInPlace(s: State, t: State)
    requires Inv(s) && s.writer.WCopying? && s.writer.i < s.writer.n && WriterStep(s, t)
    ensures forall k :: s.released <= k < |s.put| ==> InPlace(s, k) && Slot(k, |s.data|) != s.writer.tail
    ensures forall k :: s.released <= k < |t.put| ==> InPlace(t, k)
  {
    hide Slot, ReaderInv;
    forall k | s.released <= k < |s.put|
      ensures InPlace(s, k) && InPlace(t, k) && Slot(k, |s.data|) != s.writer.tail
    {
      assert InPlace(s, k);
      DistinctSlots(k, |s.put|, |s.data|);
    }
    assert InPlace(t, |s.put|);
  }

  lemma TakeMore(src: seq<Byte>, i: nat)
    requires i < |src|
    ensures src[..i + 1] == src[..i] + [src[i]]
  {
  }

  lemma DropMore(put: seq<Byte>, b: Byte, from: nat)
    requires from <= |put|
    ensures (put + [b])[from..] == put[from..] + [b]
  {
  }

  lemma PrefixStays(got: seq<Byte>, put: seq<Byte>, b: Byte)
    requires |got| <= |put| && got == put[..|got|]
    ensures got == (put + [b])[..|got|]
  {
  }

  lemma ReaderKeeps(s: State, t: State)
    requires Inv(s) && ReaderStep(s, t)
    ensures Inv(t)
  {
    hide Slot;
    StaysInPlace(s, t);
    hide InPlace;
    if s.reader.RCopying? && s.reader.j < s.reader.m {
      LoadByte(s, t);
    }
  }

  lemma LoadByte(s: State, t: State)
    requires Inv(s) && s.reader.RCopying? && s.reader.j < s.reader.m && ReaderStep(s, t)
    ensures t.got == t.put[..|t.got|] && |t.got| == |s.got| + 1
    ensures WriterInv(t) && ReaderInv(t)
  {
    hide Slot;
    assert InPlace(s, |s.got|);
    NextSlot(|s.got|, |s.data|);
    assert t.put[..|t.got|] == s.put[..|s.got|] + [s.put[|s.got|]];
    assert t.got[t.released..] == s.got[s.released..] + [s.put[|s.got|]];
  }

  // ---- what every run keeps ----

  lemma {:induction false} RunInv(run: seq<State>, i: nat)
    requires Run(run) && i < |run|
    ensures Inv(run[i]) && |run[i].data| == |run[0].data|
  {
    if i == 0 {
      InitInv(run[0]);
    } else {
      RunInv(run, i - 1);
      assert Next(run[i - 1], run[i - 1 + 1]);
      if WriterStep(run[i - 1], run[i]) {
        WriterKeeps(run[i - 1], run[i]);
      } else {
        ReaderKeeps(run[i - 1], run[i]);
      }
    }
  }

  /**
   * In every interleaving the bytes read are a prefix of the bytes written, `len` stays within
   * the ring, and both indices stay inside it.
   */
  lemma PrefixAlways(run: seq<State>, i: nat)
    requires Run(run) && i < |run|
    ensures run[i].got <= run[i].put
    ensures 0 <= run[i].len <= |run[0].data|
    ensures |run[0].data| != 0 ==> 0 <= run[i].head < |run[0].data| && 0 <= run[i].tail < |run[0].data|
  {
    RunInv(run, i);
    hide Slot;
  }

  /** No step changes the slot of a byte that has been written and not yet read. */
  lemma UnreadKept(run: seq<State>, i: nat, k: nat)
    requires Run(run) && i + 1 < |run|
    requires |run[i].got| <= k < |run[i].put|
    ensures InPlace(run[i], k) && |run[i + 1].data| == |run[i].data|
    ensures run[i + 1].data[Slot(k, |run[i].data|)] == run[i].data[Slot(k, |run[i].data|)]
  {
    hide Slot, Run;
    var s, t := run[i], run[i + 1];
    RunInv(run, i);
    RunInv(run, i + 1);
    RunStep(run, i);
    assert InPlace(s, k);
    if s.writer.WCopying? && s.writer.i < s.writer.n && WriterStep(s, t) {
      StoreByte(s, t);
    }
  }

  lemma RunStep(run: seq<State>, i: nat)
    requires Run(run) && i + 1 < |run|
    ensures Next(run[i], run[i + 1])
  {
  }

  // ---- refinement of a bounded queue ----

  /** The queue the two threads share: bytes published by `write` and not yet released by `read`. */
  function Queue(s: State): seq<Byte>
  {
    if s.released <= s.published <= |s.put| then s.put[s.released..s.published] else []
  }

  /**
   * Every step leaves the queue alone, or is the last of a `write` call and appends the first
   * `n` bytes of its argument, or is the last of a `read` call and removes the `m` bytes it
   * copied out.
   */
  ghost predicate QueueStep(s: State, t: State) {
    || (Queue(t) == Queue(s) && !(s.writer.WStored? && t.writer == WIdle) && !(s.reader.RStored? && t.reader == RIdle))
    || (s.writer.WStored? && t.writer == WIdle && 0 <= s.writer.n <= |s.writer.src|
        && Queue(t) == Queue(s) + s.writer.src[..s.writer.n])
    || (s.reader.RStored? && t.reader == RIdle && Queue(s) == s.reader.dst + Queue(t) && |s.reader.dst| == s.reader.m)
  }

  /** Each call takes effect at one step, as on a first-in first-out queue of at most `cap` bytes. */
  lemma RefinesQueue(run: seq<State>, i: nat)
    requires Run(run) && i + 1 < |run|
    ensures QueueStep(run[i], run[i + 1])
    ensures |Queue(run[i + 1])| == run[i + 1].len <= |run[0].data|
  {
    hide Slot, Run, QueueStep;
    RunInv(run, i);
    RunInv(run, i + 1);
    RunStep(run, i);
    if WriterStep(run[i], run[i + 1]) {
      WriterRefines(run[i], run[i + 1]);
    } else {
      ReaderRefines(run[i], run[i + 1]);
    }
  }

  lemma WriterRefines(s: State, t: State)
    requires Inv(s) && Inv(t) && WriterStep(s, t)
    ensures QueueStep(s, t)
  {
    hide Slot, InPlace;
    if s.writer.WStored? {
      SliceGrows(s.put, s.released, s.published);
    } else if s.writer.WCopying? && s.writer.i < s.writer.n {
      SliceStays(s.put, s.writer.src[s.writer.i], s.released, s.published);
    }
  }

  lemma SliceGrows(put: seq<Byte>, from: nat, to: nat)
    requires from <= to <= |put|
    ensures put[from..|put|] == put[from..to] + put[to..]
  {
  }

  lemma SliceStays(put: seq<Byte>, b: Byte, from: nat, to: nat)
    requires from <= to <= |put|
    ensures (put + [b])[from..to] == put[from..to]
  {
  }

  lemma ReaderRefines(s: State, t: State)
    requires Inv(s) && Inv(t) && ReaderStep(s, t)
    ensures QueueStep(s, t)
  {
    hide Slot, InPlace;
    if s.reader.RStored? {
      assert s.put[s.released..|s.got|] == s.got[s.released..];
      assert Queue(s) == s.reader.dst + Queue(t);
    } else {
      assert Queue(t) == Queue(s);
    }
  }

  /** `write` returns 0 early exactly for an empty argument or a full pipe, `read` for no room or an empty pipe. */
  lemma ReturnsZero(run: seq<State>, i: nat)
    requires Run(run) && i + 1 < |run|
    ensures run[i].writer.WCalled? && run[i + 1].writer != run[i].writer ==>
              (run[i + 1].writer == WIdle <==> run[i].writer.src == [] || |Queue(run[i])| == |run[0].data|)
    ensures run[i].reader.RCalled? && run[i + 1].reader != run[i].reader ==>
              (run[i + 1].reader == RIdle <==> run[i].reader.room == 0 || Queue(run[i]) == [])
  {
    hide Slot, Run, InPlace;
    RunInv(run, i);
    RunStep(run, i);
  }

  /** When both calls have returned, the ring holds exactly the unread bytes, as `SharedPipe` lays them out. */
  lemma QuietRing(run: seq<State>, i: nat)
    requires Run(run) && i < |run| && run[i].writer == WIdle && run[i].reader == RIdle && run[0].data != []
    ensures var s := run[i];
            && 0 <= s.head && 0 <= s.len <= |s.data|
            && s.put == s.got + Ring(s.data, s.head, s.len)
            && s.data != [] && s.tail == Slot(s.head + s.len, |s.data|)
  {
    hide Slot, Run;
    RunInv(run, i);
    var s := run[i];
    SlotShift(s.released, s.len, |s.data|);
    forall k | 0 <= k < s.len
      ensures Ring(s.data, s.head, s.len)[k] == s.put[s.released + k]
    {
      SlotShift(s.released, k, |s.data|);
      assert InPlace(s, s.released + k);
    }
  }

  // ---- how much a call moves ----

  /** What a `write` call of `src` settles on at this moment. */
  predicate Fills(s: State, src: seq<Byte>, n: int) {
    && 0 <= n <= |src| && |Queue(s)| + n <= |s.data|
    && (n == |src| || |Queue(s)| + n == |s.data|)
  }

  /** What a `read` call with this much room settles on at this moment. */
  predicate Empties(s: State, room: nat, m: int) {
    && 0 <= m <= room && m <= |Queue(s)|
    && (m == room || m == |Queue(s)|)
  }

  /**
   * A `write` call settles once on how much it moves: all it was given, or what fills the queue of
   * that moment. It ends at once exactly when that is nothing, and otherwise moves that much.
   */
  lemma WriteSettles(run: seq<State>, i: nat)
    requires Run(run) && i + 1 < |run| && run[i + 1].writer != run[i].writer
    ensures var w, v := run[i].writer, run[i + 1].writer;
            && (w.WCalled? && v.WSized? ==> v.src == w.src && 0 < v.n && Fills(run[i], w.src, v.n))
            && (w.WCalled? && !v.WSized? ==> v == WIdle && Fills(run[i], w.src, 0))
            && (w.WSized? || w.WCopying? ==> (v.WCopying? || v.WStored?) && v.src == w.src && v.n == w.n)
  {
    hide Slot, Run;
    RunInv(run, i);
    RunStep(run, i);
  }

  /** A `read` call settles once: on all it has room for, or on what empties the queue of that moment. */
  lemma ReadSettles(run: seq<State>, i: nat)
    requires Run(run) && i + 1 < |run| && run[i + 1].reader != run[i].reader
    ensures var r, v := run[i].reader, run[i + 1].reader;
            && (r.RCalled? && v.RSized? ==> 0 < v.m && Empties(run[i], r.room, v.m))
            && (r.RCalled? && !v.RSized? ==> v == RIdle && Empties(run[i], r.room, 0))
            && (r.RSized? || r.RCopying? ==> (v.RCopying? || v.RStored?) && v.m == r.m)
  {
    hide Slot, Run;
    RunInv(run, i);
    RunStep(run, i);
  }
}
