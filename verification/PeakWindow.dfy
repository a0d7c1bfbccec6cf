/**
 Sliding maximum of absolute values: a monotonic deque kept in a ring, proved against the plain maximum of the window.

 Sample times count pushes from 1; at time 0 and before the input was zero.
 */
module PeakWindow {
  import opened Reals
  import opened Powers
  import opened Ring

  // ── The plain maximum ──

  /** The value at time `t`. */
  function Val(h: seq<real>, t: int): real {
    if 1 <= t <= |h| then h[t - 1] else 0.0
  }

  /** The maximum over the times in `(lo, hi]`. */
  function MaxOver(h: seq<real>, lo: int, hi: int): real
    decreases hi - lo
  {
    if hi <= lo then 0.0 else Max(Val(h, hi), MaxOver(h, lo, hi - 1))
  }

  ghost predicate NonNegative(h: seq<real>) {
    forall i :: 0 <= i < |h| ==> h[i] >= 0.0
  }

  lemma {:induction false} MaxOverIsMaximum(h: seq<real>, lo: int, hi: int)
    requires NonNegative(h) && lo < hi
    ensures forall t :: lo < t <= hi ==> Val(h, t) <= MaxOver(h, lo, hi)
    ensures exists t :: lo < t <= hi && Val(h, t) == MaxOver(h, lo, hi)
    decreases hi - lo
  {
    assert Val(h, hi) >= 0.0;
    if lo < hi - 1 {
      MaxOverIsMaximum(h, lo, hi - 1);
      var t :| lo < t <= hi - 1 && Val(h, t) == MaxOver(h, lo, hi - 1);
      assert Val(h, t) == MaxOver(h, lo, hi) || Val(h, hi) == MaxOver(h, lo, hi);
    }
  }

  /** The same on positions: before the start there were zeros. */
  lemma MaxSpelled(h: seq<real>, window: nat)
    requires NonNegative(h) && window > 0
    ensures var r := MaxOver(h, |h| - window, |h|);
            && (forall k :: |h| - window <= k < |h| && k >= 0 ==> h[k] <= r)
            && ((r == 0.0 && |h| < window) || exists k :: 0 <= k < |h| && |h| - window <= k && h[k] == r)
  {
    hide MaxOver;
    var lo := |h| - window;
    MaxOverIsMaximum(h, lo, |h|);
    forall k | |h| - window <= k < |h| && k >= 0 ensures h[k] <= MaxOver(h, lo, |h|) {
      assert Val(h, k + 1) == h[k];
    }
    var t :| lo < t <= |h| && Val(h, t) == MaxOver(h, lo, |h|);
    assert t >= 1 ==> h[t - 1] == Val(h, t);
  }

  // ── The deque, by times ──

  /** `buf` holds the last `|buf|` values. */
  ghost predicate BufOk(buf: seq<real>, h: seq<real>) {
    |buf| > 0 && forall t :: |h| - |buf| < t <= |h| ==> buf[Slot(t, |buf|)] == Val(h, t)
  }

  /** The ring from `head` holds the slots of `times`. */
  ghost predicate DequeOk(dq: seq<nat>, head: nat, times: seq<int>) {
    && |dq| > 0 && head < |dq| && |times| <= |dq|
    && forall i :: 0 <= i < |times| ==> dq[Slot(head + i, |dq|)] == Slot(times[i], |dq|)
  }

  /** Times in `(lo, hi]`, increasing, with strictly decreasing values. */
  ghost predicate Falling(h: seq<real>, lo: int, hi: int, times: seq<int>) {
    && (forall i :: 0 <= i < |times| ==> lo < times[i] <= hi)
    && (forall i, j :: 0 <= i < j < |times| ==> times[i] < times[j] && Val(h, times[i]) > Val(h, times[j]))
  }

  ghost predicate Covers(h: seq<real>, t: int, times: seq<int>) {
    exists i :: 0 <= i < |times| && times[i] >= t && Val(h, times[i]) >= Val(h, t)
  }

  /** Every time in `(lo, hi]` is at or before the start, or below `floor`, or has a later entry that is no smaller. */
  ghost predicate Covered(h: seq<real>, lo: int, hi: int, times: seq<int>, floor: real) {
    forall t :: lo < t <= hi && t >= 1 ==> Val(h, t) <= floor || Covers(h, t, times)
  }

  /** A deque over `(lo, hi]`: its front is the maximum. */
  ghost predicate Monotone(h: seq<real>, lo: int, hi: int, times: seq<int>) {
    Falling(h, lo, hi, times) && Covered(h, lo, hi, times, -1.0)
  }

  lemma {:induction false} IncreasingBounded(h: seq<real>, lo: int, hi: int, times: seq<int>)
    requires Falling(h, lo, hi, times) && lo <= hi
    ensures |times| <= hi - lo
    decreases |times|
  {
    if |times| > 0 {
      var n := |times| - 1;
      IncreasingBounded(h, lo, times[n] - 1, times[..n]);
    }
  }

  /** The front of a monotone deque is the maximum of its range. */
  lemma FrontIsMax(h: seq<real>, lo: int, hi: int, times: seq<int>)
    requires NonNegative(h) && Monotone(h, lo, hi, times) && lo < hi <= |h|
    ensures MaxOver(h, lo, hi) == if times == [] then 0.0 else Val(h, times[0])
  {
    MaxOverIsMaximum(h, lo, hi);
    var t :| lo < t <= hi && Val(h, t) == MaxOver(h, lo, hi);
    if t >= 1 {
      assert Val(h, t) >= 0.0;
      var i :| 0 <= i < |times| && times[i] >= t && Val(h, times[i]) >= Val(h, t);
    }
  }

  // ── Pushing, on times ──

  /** A new value leaves the older ones as they were. */
  lemma ExtendHistory(h: seq<real>, v: real, lo: int, times: seq<int>)
    requires Monotone(h, lo, |h|, times) && NonNegative(h)
    ensures Monotone(h + [v], lo, |h|, times)
  {
    forall t | t <= |h| ensures Val(h + [v], t) == Val(h, t) {
    }
    forall t | lo < t <= |h| && t >= 1 ensures Covers(h + [v], t, times) {
      assert Covers(h, t, times);
    }
  }

  lemma FallingSlice(h: seq<real>, lo: int, hi: int, times: seq<int>, a: nat, b: nat)
    requires Falling(h, lo, hi, times) && a <= b <= |times|
    ensures Falling(h, lo, hi, times[a..b])
  {
    var s := times[a..b];
    forall i, j | 0 <= i < j < |s| ensures s[i] < s[j] && Val(h, s[i]) > Val(h, s[j]) {
      assert s[i] == times[a + i] && s[j] == times[a + j];
    }
  }

  lemma CoversSlice(h: seq<real>, t: int, times: seq<int>, a: nat, b: nat, i: nat)
    requires a <= i < b <= |times| && times[i] >= t && Val(h, times[i]) >= Val(h, t)
    ensures Covers(h, t, times[a..b])
  {
    assert times[a..b][i - a] == times[i];
  }

  /** The front entry leaves the window with the time it stands for, and only then. */
  lemma EvictFront(h: seq<real>, lo: int, hi: int, times: seq<int>)
    requires Monotone(h, lo, hi, times)
    ensures Monotone(h, lo + 1, hi, if times != [] && times[0] == lo + 1 then times[1..] else times)
  {
    hide Val;
    if times != [] && times[0] == lo + 1 {
      FallingSlice(h, lo, hi, times, 1, |times|);
      assert times[1..|times|] == times[1..];
      assert forall i :: 0 < i < |times| ==> times[0] < times[i];
      forall t | lo + 1 < t <= hi && t >= 1 ensures Val(h, t) <= -1.0 || Covers(h, t, times[1..]) {
        if !(Val(h, t) <= -1.0) {
          var i :| 0 <= i < |times| && times[i] >= t && Val(h, times[i]) >= Val(h, t);
          CoversSlice(h, t, times, 1, |times|, i);
        }
      }
    } else {
      assert forall i :: 0 < i < |times| ==> times[0] < times[i];
    }
  }

  /** A back entry no larger than the incoming value is not needed any more. */
  lemma PopBack(h: seq<real>, lo: int, hi: int, times: seq<int>, v: real)
    requires Falling(h, lo, hi, times) && Covered(h, lo, hi, times, v)
    requires times != [] && Val(h, times[|times| - 1]) <= v
    ensures Falling(h, lo, hi, times[..|times| - 1]) && Covered(h, lo, hi, times[..|times| - 1], v)
  {
    hide Val, Falling;
    var n := |times| - 1;
    FallingSlice(h, lo, hi, times, 0, n);
    assert times[0..n] == times[..n];
    forall t | lo < t <= hi && t >= 1 ensures Val(h, t) <= v || Covers(h, t, times[..n]) {
      if !(Val(h, t) <= v) {
        var i :| 0 <= i < |times| && times[i] >= t && Val(h, times[i]) >= Val(h, t);
        CoversSlice(h, t, times, 0, n, i);
      }
    }
  }

  /** The incoming value goes to the back, once the entries before it are larger. */
  lemma PushBack(h: seq<real>, lo: int, hi: int, times: seq<int>)
    requires Falling(h, lo, hi - 1, times) && Covered(h, lo, hi - 1, times, Val(h, hi)) && lo < hi
    requires times == [] || Val(h, times[|times| - 1]) > Val(h, hi)
    ensures Monotone(h, lo, hi, times + [hi])
  {
    var more := times + [hi];
    assert more[|times|] == hi;
    forall t | lo < t <= hi && t >= 1 ensures Covers(h, t, more) {
      if t < hi && Val(h, t) > Val(h, hi) {
        var i :| 0 <= i < |times| && times[i] >= t && Val(h, times[i]) >= Val(h, t);
        assert more[i] == times[i];
      }
    }
  }

  // ── The ring, by slots ──

  lemma RingPush(dq: seq<nat>, head: nat, times: seq<int>, t: int)
    requires DequeOk(dq, head, times) && |times| < |dq|
    ensures DequeOk(dq[Slot(head + |times|, |dq|) := Slot(t, |dq|)], head, times + [t])
  {
    hide Slot;
    var n, dq', times' := |times|, dq[Slot(head + |times|, |dq|) := Slot(t, |dq|)], times + [t];
    forall i | 0 <= i < n + 1 ensures dq'[Slot(head + i, |dq|)] == Slot(times'[i], |dq|) {
      if i < n && Slot(head + i, |dq|) == Slot(head + n, |dq|) {
        SlotUnique(head + i, head + n, |dq|);
      }
    }
  }

  lemma RingPopFront(dq: seq<nat>, head: nat, times: seq<int>)
    requires DequeOk(dq, head, times) && times != []
    ensures DequeOk(dq, Slot(head + 1, |dq|), times[1..])
  {
    hide Slot;
    forall i | 0 <= i < |times| - 1 ensures dq[Slot(Slot(head + 1, |dq|) + i, |dq|)] == Slot(times[1..][i], |dq|) {
      SlotAdd(head + 1, i, |dq|);
      assert head + 1 + i == head + (i + 1);
    }
  }

  lemma BufPush(buf: seq<real>, h: seq<real>, v: real)
    requires BufOk(buf, h)
    ensures BufOk(buf[Slot(|h| + 1, |buf|) := v], h + [v])
  {
    hide Slot;
    var h' := h + [v];
    forall t | |h'| - |buf| < t <= |h'| ensures buf[Slot(|h| + 1, |buf|) := v][Slot(t, |buf|)] == Val(h', t) {
      if Slot(t, |buf|) == Slot(|h| + 1, |buf|) {
        SlotUnique(t, |h| + 1, |buf|);
      }
    }
  }

  /** Deque slot `slot` names a buffer slot holding `v`. */
  ghost predicate Holds(buf: seq<real>, dq: seq<nat>, slot: nat, v: real) {
    slot < |dq| && dq[slot] < |buf| && buf[dq[slot]] == v
  }

  lemma EntryHolds(buf: seq<real>, dq: seq<nat>, head: nat, h: seq<real>, lo: int, hi: int, times: seq<int>, i: nat)
    requires BufOk(buf, h) && DequeOk(dq, head, times) && |dq| == |buf| && i < |times|
    requires Falling(h, lo, hi, times) && |h| - |buf| <= lo && hi <= |h|
    ensures Holds(buf, dq, Slot(head + i, |dq|), Val(h, times[i]))
  {
    hide Val, Slot;
    assert dq[Slot(head + i, |dq|)] == Slot(times[i], |dq|);
    assert lo < times[i] <= hi;
  }

  lemma RingPopBack(dq: seq<nat>, head: nat, times: seq<int>)
    requires DequeOk(dq, head, times) && times != []
    ensures DequeOk(dq, head, times[..|times| - 1])
  {
    hide Slot;
  }

  /** The whole representation after the pushes `h`. */
  ghost predicate Rep(buf: seq<real>, dq: seq<nat>, write: nat, head: nat, len: nat, window: nat, h: seq<real>,
                      times: seq<int>) {
    && BufOk(buf, h) && NonNegative(h) && |dq| == |buf| && write == Slot(|h|, |buf|)
    && DequeOk(dq, head, times) && len == |times|
    && 1 <= window <= |buf| && Monotone(h, |h| - window, |h|, times)
  }

  class PeakWindow {
    const buf: array<real>
    const dq: array<nat>
    var write: nat
    var dqHead: nat
    var dqLen: nat
    var window: nat

    /** The absolute values pushed so far. */
    ghost var history: seq<real>
    /** The times the deque entries stand for, front to back. */
    ghost var times: seq<int>
    /** Deque insertions and removals since construction; `dropped` entries went when the window was rebuilt. */
    ghost var inserted: nat
    ghost var popped: nat
    ghost var dropped: nat

    ghost predicate Valid()
      reads this, buf, dq
    {
      && Rep(buf[..], dq[..], write, dqHead, dqLen, window, history, times)
      && popped + dropped + dqLen == inserted
    }

    constructor (minLen: nat)
      requires minLen > 0
      ensures Valid() && fresh(buf) && fresh(dq)
      ensures minLen <= buf.Length == window < 2 * minLen && IsPowerOfTwo(buf.Length)
      ensures history == [] && inserted == 0
    {
      var size := NextPowerOfTwo(minLen);
      buf := new real[size](_ => 0.0);
      dq := new nat[size](_ => 0);
      write, dqHead, dqLen, window := 0, 0, 0, size;
      history, times, inserted, popped, dropped := [], [], 0, 0, 0;
    }

    /**
       Appends ring index `idx`, the slot of time `hi`, after popping the back entries that are no larger: the inner
       loop of both `Push` and `RebuildDeque`.
       */
    method AppendIndex(idx: nat, val: real, ghost lo: int, ghost hi: int)
      requires BufOk(buf[..], history) && NonNegative(history) && dq.Length == buf.Length
      requires DequeOk(dq[..], dqHead, times) && dqLen == |times| && popped + dropped + dqLen == inserted
      requires |history| - buf.Length <= lo < hi <= |history| && Monotone(history, lo, hi - 1, times)
      requires idx == Slot(hi, buf.Length) && val == Val(history, hi)
      modifies `dqLen, `times, `inserted, `popped, dq
      ensures DequeOk(dq[..], dqHead, times) && dqLen == |times| && Monotone(history, lo, hi, times)
      ensures popped + dropped + dqLen == inserted == old(inserted) + 1
    {
      hide Val, Slot, Falling, Covered, BufOk, NonNegative, DequeOk;
      AppendStart(history, lo, hi, times);
      RingShape(buf[..], dq[..], dqHead, history, times);
      if dqLen > 0 {
        EntryHolds(buf[..], dq[..], dqHead, history, lo, hi - 1, times, dqLen - 1);
      }
      while dqLen > 0 && buf[dq[Slot(dqHead + dqLen - 1, dq.Length)]] <= val
        invariant dqLen == |times| && popped + dropped + dqLen == inserted == old(inserted)
        invariant DequeOk(dq[..], dqHead, times) && dq[..] == old(dq[..])
        invariant Falling(history, lo, hi - 1, times) && Covered(history, lo, hi - 1, times, val)
        invariant dqLen > 0 ==>
                    Holds(buf[..], dq[..], Slot(dqHead + dqLen - 1, dq.Length), Val(history, times[|times| - 1]))
        decreases dqLen
        modifies `dqLen, `times, `popped
      {
        PopBack(history, lo, hi - 1, times, val);
        RingPopBack(dq[..], dqHead, times);
        dqLen := dqLen - 1;
        times := times[..|times| - 1];
        popped := popped + 1;
        if dqLen > 0 {
          EntryHolds(buf[..], dq[..], dqHead, history, lo, hi - 1, times, dqLen - 1);
        }
      }
      IncreasingBounded(history, lo, hi - 1, times);
      RingPush(dq[..], dqHead, times, hi);
      PushBack(history, lo, hi, times);
      dq[Slot(dqHead + dqLen, dq.Length)] := idx;
      dqLen := dqLen + 1;
      times := times + [hi];
      inserted := inserted + 1;
    }

    method Push(x: real)
      requires Valid()
      modifies this, buf, dq
      ensures Valid() && history == old(history) + [if x < 0.0 then -x else x] && window == old(window)
      ensures inserted == old(inserted) + 1
    {
      hide Rep, Slot, Falling, Covered, BufOk, NonNegative, DequeOk, Monotone, Abs;
      RepParts(buf[..], dq[..], write, dqHead, dqLen, window, history, times);
      ghost var h, lo := history, |history| - window;
      SlotAdd(|h|, 1, buf.Length);
      write := Slot(write + 1, buf.Length);
      var val := Abs(x);
      AbsNonNegative(h, x);
      BufPush(buf[..], h, val);
      buf[write] := val;
      history := history + [val];
      ExtendHistory(h, val, lo, times);

      SlotAdd(|h| + 1, -(window as int), buf.Length);
      var evict := Slot(write - window, buf.Length);
      EvictFront(history, lo, |h|, times);
      ShouldEvict(dq[..], dqHead, history, lo, |h|, times, buf.Length);
      if dqLen > 0 && dq[dqHead] == evict {
        RingPopFront(dq[..], dqHead, times);
        dqHead := Slot(dqHead + 1, dq.Length);
        dqLen := dqLen - 1;
        times := times[1..];
        popped := popped + 1;
      }
      AppendIndex(write, val, lo + 1, |history|);
      RepFrom(buf[..], dq[..], write, dqHead, dqLen, window, history, times);
    }

    /** The active window, clamped to `[1, capacity]`; the history is kept. */
    method SetWindow(n: nat)
      requires Valid()
      modifies this, dq
      ensures Valid() && history == old(history)
      ensures window == if n < 1 then 1 else if n > buf.Length then buf.Length else n
      ensures inserted == old(inserted) + window
    {
      window := if n < 1 then 1 else if n > buf.Length then buf.Length else n;
      RebuildDeque();
    }

    method RebuildDeque()
      requires BufOk(buf[..], history) && NonNegative(history) && dq.Length == buf.Length && 1 <= window <= buf.Length
      requires write == Slot(|history|, buf.Length) && popped + dropped + dqLen == inserted
      modifies `dqHead, `dqLen, `times, `inserted, `popped, `dropped, dq
      ensures Valid() && inserted == old(inserted) + window
    {
      hide Rep, Slot, Falling, Covered, BufOk, NonNegative, DequeOk, Monotone;
      dropped := dropped + dqLen;
      dqHead, dqLen, times := 0, 0, [];
      EmptyDeque(dq[..], history, |history| - window);
      var age := window;
      while age > 0
        invariant 0 <= age <= window
        invariant DequeOk(dq[..], dqHead, times) && dqLen == |times|
        invariant Monotone(history, |history| - window, |history| - age, times)
        invariant popped + dropped + dqLen == inserted == old(inserted) + (window - age)
      {
        age := age - 1;
        SlotAdd(|history|, -age, buf.Length);
        var idx := Slot(write - age, buf.Length);
        BufAt(buf[..], history, |history| - age);
        AppendIndex(idx, buf[idx], |history| - window, |history| - age);
      }
      RepFrom(buf[..], dq[..], write, dqHead, dqLen, window, history, times);
    }

    /** The maximum of the last `window` absolute values. */
    method Peak() returns (r: real)
      requires Valid()
      ensures r == MaxOver(history, |history| - window, |history|)
      ensures forall k :: |history| - window <= k < |history| && k >= 0 ==> history[k] <= r
      ensures (r == 0.0 && |history| < window)
              || exists k :: 0 <= k < |history| && |history| - window <= k && history[k] == r
    {
      hide Slot, Val, MaxOver;
      MaxSpelled(history, window);
      FrontIsMax(history, |history| - window, |history|, times);
      if dqLen == 0 {
        r := 0.0;
      } else {
        EntryHolds(buf[..], dq[..], dqHead, history, |history| - window, |history|, times, 0);
        SlotSelf(dqHead, dq.Length);
        r := buf[dq[dqHead]];
      }
    }
  }

  lemma SlotSelf(a: nat, cap: nat)
    requires a < cap
    ensures Slot(a, cap) == a
  {}

  lemma RepParts(buf: seq<real>, dq: seq<nat>, write: nat, head: nat, len: nat, window: nat, h: seq<real>,
                 times: seq<int>)
    requires Rep(buf, dq, write, head, len, window, h, times)
    ensures BufOk(buf, h) && NonNegative(h) && |dq| == |buf| > 0 && write == Slot(|h|, |buf|) && head < |dq|
    ensures DequeOk(dq, head, times) && len == |times|
    ensures 1 <= window <= |buf| && Monotone(h, |h| - window, |h|, times)
  {}

  lemma RepFrom(buf: seq<real>, dq: seq<nat>, write: nat, head: nat, len: nat, window: nat, h: seq<real>,
                times: seq<int>)
    requires BufOk(buf, h) && NonNegative(h) && |dq| == |buf| && |buf| > 0 && write == Slot(|h|, |buf|)
    requires DequeOk(dq, head, times) && len == |times|
    requires 1 <= window <= |buf| && Monotone(h, |h| - window, |h|, times)
    ensures Rep(buf, dq, write, head, len, window, h, times)
  {}

  lemma AbsNonNegative(h: seq<real>, x: real)
    requires NonNegative(h)
    ensures NonNegative(h + [Abs(x)]) && Val(h + [Abs(x)], |h| + 1) == Abs(x)
  {}

  /** The front holds the evicted slot exactly when it stands for the time that leaves the window. */
  lemma ShouldEvict(dq: seq<nat>, head: nat, h: seq<real>, lo: int, hi: int, times: seq<int>, cap: nat)
    requires DequeOk(dq, head, times) && |dq| == cap && Monotone(h, lo, hi, times) && hi - lo <= cap && cap > 0
    ensures times != [] ==> (dq[head] == Slot(lo + 1, cap) <==> times[0] == lo + 1)
  {
    hide Slot, Covered;
    if times != [] {
      assert dq[Slot(head + 0, cap)] == Slot(times[0], cap);
      SlotSelf(head, cap);
      if dq[head] == Slot(lo + 1, cap) {
        SlotUnique(times[0], lo + 1, cap);
      }
    }
  }

  lemma EmptyDeque(dq: seq<nat>, h: seq<real>, lo: int)
    requires |dq| > 0
    ensures DequeOk(dq, 0, []) && Monotone(h, lo, lo, [])
  {}

  lemma BufAt(buf: seq<real>, h: seq<real>, t: int)
    requires BufOk(buf, h) && |h| - |buf| < t <= |h|
    ensures |buf| > 0 && buf[Slot(t, |buf|)] == Val(h, t)
  {
    hide Slot;
  }

  lemma AppendStart(h: seq<real>, lo: int, hi: int, times: seq<int>)
    requires Monotone(h, lo, hi - 1, times) && NonNegative(h)
    ensures Covered(h, lo, hi - 1, times, Val(h, hi)) && Val(h, hi) >= 0.0
  {}

  lemma RingShape(buf: seq<real>, dq: seq<nat>, head: nat, h: seq<real>, times: seq<int>)
    requires BufOk(buf, h) && DequeOk(dq, head, times)
    ensures |buf| > 0 && head < |dq| && |times| <= |dq|
  {}
}
