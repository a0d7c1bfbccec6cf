/** Power-of-two rings: the slot of a time, and when two times share one. */
module Ring {
  import opened Powers

  /** The ring slot of a time; the source masks with `cap - 1`, `cap` being a power of two. */
  function Slot(t: int, cap: nat): (r: nat)
    requires cap > 0
    ensures r < cap
  {
    t % cap
  }

  lemma SlotAdd(a: int, b: int, cap: nat)
    requires cap > 0
    ensures Slot(Slot(a, cap) + b, cap) == Slot(a + b, cap)
  {
    var q := (a + b) / cap - a / cap;
    var r := a % cap + b - cap * q;
    assert r == (a + b) - cap * ((a + b) / cap) == (a + b) % cap;
    DivModUnique(a % cap + b, cap, q, r);
  }

  lemma SlotUnique(a: int, b: int, cap: nat)
    requires cap > 0 && a - b < cap && b - a < cap && Slot(a, cap) == Slot(b, cap)
    ensures a == b
  {
    SmallMultiple(cap, a / cap - b / cap);
  }

  lemma SlotTurn(t: int, cap: nat)
    requires cap > 0
    ensures Slot(t + cap, cap) == Slot(t, cap)
  {
    DivModUnique(t + cap, cap, t / cap + 1, t % cap);
  }
}
