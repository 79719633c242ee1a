/** Positions on an unbounded tape folded onto the slots of a ring. */
module RingIndex {
  function Slot(k: nat, cap: nat): (s: nat)
    requires 0 < cap
    ensures s < cap
  {
    k % cap
  }

  lemma SlotIs(k: nat, cap: nat, q: nat, r: nat)
    requires 0 < cap && r < cap && k == q * cap + r
    ensures Slot(k, cap) == r
  {
    var d := k / cap;
    assert k == d * cap + k % cap;
    Quotients(cap, d, k % cap, q, r);
  }

  lemma Quotients(cap: nat, d: nat, s: nat, q: nat, r: nat)
    requires r < cap && s < cap && d * cap + s == q * cap + r
    ensures d == q && s == r
    decreases d + q
  {
    if d > 0 && q > 0 {
      Quotients(cap, d - 1, s, q - 1, r);
    }
  }

  lemma SlotWithin(k: nat, cap: nat)
    requires k < cap
    ensures Slot(k, cap) == k
  {
    SlotIs(k, cap, 0, k);
  }

  /** Advancing a slot index wraps as the position does. */
  lemma NextSlot(k: nat, cap: nat)
    requires 0 < cap
    ensures Slot(Slot(k, cap) + 1, cap) == Slot(k + 1, cap)
  {
    var q, r := k / cap, k % cap;
    assert k == q * cap + r;
    if r + 1 < cap {
      SlotIs(k + 1, cap, q, r + 1);
      SlotWithin(r + 1, cap);
    } else {
      SlotIs(k + 1, cap, q + 1, 0);
      SlotIs(cap, cap, 1, 0);
    }
  }

  /** Positions less than a ring apart fall in different slots. */
  lemma DistinctSlots(i: nat, j: nat, cap: nat)
    requires i < j < i + cap
    ensures Slot(i, cap) != Slot(j, cap)
  {
    var q, r := i / cap, i % cap;
    assert i == q * cap + r;
    if r + (j - i) < cap {
      SlotIs(j, cap, q, r + (j - i));
    } else {
      SlotIs(j, cap, q + 1, r + (j - i) - cap);
    }
  }

  lemma {:induction false} SlotShift(k: nat, i: nat, cap: nat)
    requires 0 < cap
    ensures Slot(Slot(k, cap) + i, cap) == Slot(k + i, cap)
    decreases i
  {
    hide Slot;
    if i == 0 {
      SlotWithin(Slot(k, cap), cap);
    } else {
      SlotShift(k, i - 1, cap);
      NextSlot(Slot(k, cap) + (i - 1), cap);
      NextSlot(k + (i - 1), cap);
    }
  }
}
