/** Index arithmetic shared by the three single-producer/single-consumer ring
    buffers of the profiler. Each of them keeps `m = capacity + 1` slots and a
    read index `r` and a write index `w` in `[0, m)`; the buffer is empty when
    `r == w` and full when the slot after `w` is `r`, so one slot always stays
    unused. */
module RingMath {

  /** The successor of index `i` in a ring of `m` slots, computed as the
      sources compute it: `(i + 1) % m`. */
  function Next(i: int, m: int): int
    requires m > 0
  {
    (i + 1) % m
  }

  /** For an index in range, `Next` is a plain increment that wraps to 0. */
  lemma NextInRange(i: int, m: int)
    requires 0 <= i < m
    ensures Next(i, m) == if i + 1 == m then 0 else i + 1
    ensures 0 <= Next(i, m) < m
  {
  }

  /** The slot `k` positions after `r` (for `k <= m`). */
  function Slot(r: nat, k: nat, m: nat): (s: nat)
    requires r < m && k <= m
    ensures s < m
    ensures (r + k) % m == s
  {
    if r + k < m then
      ModBelow(r + k, m);
      r + k
    else
      ModWrapOnce(r + k, m);
      r + k - m
  }

  /** A value already in range is its own remainder. */
  lemma ModBelow(x: nat, m: nat)
    requires x < m
    ensures x % m == x
  {
  }

  /** A value in `[m, 2m)` wraps around once. */
  lemma ModWrapOnce(x: nat, m: nat)
    requires m <= x < 2 * m
    ensures x % m == x - m
  {
    ModBelow(x - m, m);
    assert (x - m) % m == x % m;
  }

  /** The number of occupied slots between read index `r` and write index `w`:
      `(w - r) mod m`. */
  function Count(r: nat, w: nat, m: nat): (n: nat)
    requires r < m && w < m
    ensures n < m
    ensures Slot(r, n, m) == w
  {
    if r <= w then w - r else w + m - r
  }

  /** The `n` slots starting at `r`, in queue order (oldest first). */
  function Window<T>(buf: seq<T>, r: nat, n: nat): (win: seq<T>)
    requires r < |buf| && n <= |buf|
    ensures |win| == n
  {
    seq(n, k requires 0 <= k < n => buf[Slot(r, k, |buf|)])
  }

  /** Distinct offsets below `m` name distinct slots. */
  lemma SlotInjective(r: nat, j: nat, k: nat, m: nat)
    requires r < m && j < m && k < m
    ensures Slot(r, j, m) == Slot(r, k, m) <==> j == k
  {
  }

  /** The write index runs into the read index exactly when `m - 1` slots are
      occupied: that is the "full" test of all three buffers. */
  lemma FullIffCount(r: nat, w: nat, m: nat)
    requires r < m && w < m
    ensures Next(w, m) == r <==> Count(r, w, m) == m - 1
  {
    NextInRange(w, m);
  }

  /** Writing at the write index and advancing it appends one element to the
      queue and leaves the queued elements unchanged. */
  lemma {:induction false} WindowAfterWrite<T>(buf: seq<T>, r: nat, w: nat, x: T)
    requires r < |buf| && w < |buf|
    requires Next(w, |buf|) != r
    ensures Count(r, Next(w, |buf|), |buf|) == Count(r, w, |buf|) + 1
    ensures Window(buf[w := x], r, Count(r, w, |buf|) + 1) == Window(buf, r, Count(r, w, |buf|)) + [x]
  {
    var m := |buf|;
    var n := Count(r, w, m);
    NextInRange(w, m);
    FullIffCount(r, w, m);
    var lhs := Window(buf[w := x], r, n + 1);
    var rhs := Window(buf, r, n) + [x];
    forall k | 0 <= k < n + 1
      ensures lhs[k] == rhs[k]
    {
      SlotInjective(r, k, n, m);
    }
  }

  /** Writing at the write index, without advancing it, does not touch the
      queued elements. */
  lemma {:induction false} WindowUntouchedByWrite<T>(buf: seq<T>, r: nat, w: nat, x: T)
    requires r < |buf| && w < |buf|
    ensures Window(buf[w := x], r, Count(r, w, |buf|)) == Window(buf, r, Count(r, w, |buf|))
  {
    var m := |buf|;
    var n := Count(r, w, m);
    forall k | 0 <= k < n
      ensures Window(buf[w := x], r, n)[k] == Window(buf, r, n)[k]
    {
      SlotInjective(r, k, n, m);
    }
  }

  /** Advancing the read index drops the oldest queued element; clearing the
      slot it leaves (as Rust's `Option::take` does) does not matter. */
  lemma {:induction false} WindowAfterRead<T>(buf: seq<T>, r: nat, w: nat, cleared: T)
    requires r < |buf| && w < |buf| && r != w
    ensures Count(Next(r, |buf|), w, |buf|) == Count(r, w, |buf|) - 1
    ensures Window(buf[r := cleared], Next(r, |buf|), Count(r, w, |buf|) - 1) == Window(buf, r, Count(r, w, |buf|))[1..]
  {
    var m := |buf|;
    var n := Count(r, w, m);
    NextInRange(r, m);
    var lhs := Window(buf[r := cleared], Next(r, m), n - 1);
    var rhs := Window(buf, r, n)[1..];
    forall k | 0 <= k < n - 1
      ensures lhs[k] == rhs[k]
    {
      assert Slot(Next(r, m), k, m) == Slot(r, k + 1, m);
      SlotInjective(r, k + 1, 0, m);
    }
  }
}
